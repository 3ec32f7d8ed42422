/**
 * The data file's records and the grouping of a month's events by day.
 *
 * `groupEventsByDay` walks the events in order and appends each one to the
 * bucket of the day number written in characters 8..9 of its date, creating
 * the bucket on first use. `Bucket` is the specification of one bucket: the
 * events of that day, in input order.
 */
module Events {
  import opened Wrappers
  import opened Text

  /** One calendar entry; `tag` is `None` when the record has no tag. */
  datatype Event = Event(date: string, title: string, tag: Option<string>)

  /** A month of the data file: `events` stands for `[]` when the file omits it. */
  datatype Month = Month(id: int, name: string, events: seq<Event>, image: Option<string>)

  datatype Dataset = Dataset(year: int, months: seq<Month>)

  /** A date written `YYYY-MM-DD` with ASCII digits. */
  predicate WellFormedDate(s: string)
  {
    |s| == 10 && s[4] == '-' && s[7] == '-'
    && AllDigits(s[..4]) && AllDigits(s[5..7]) && AllDigits(s[8..])
  }

  predicate AllWellFormed(events: seq<Event>)
  {
    forall e | e in events :: WellFormedDate(e.date)
  }

  /** What the data file must satisfy for the views to be built: every date well-formed. */
  predicate ValidDataset(data: Dataset)
  {
    forall i | 0 <= i < |data.months| :: AllWellFormed(data.months[i].events)
  }

  function YearOf(e: Event): nat
    requires WellFormedDate(e.date)
  {
    DecimalValue(e.date[..4])
  }

  function MonthOf(e: Event): nat
    requires WellFormedDate(e.date)
  {
    DecimalValue(e.date[5..7])
  }

  /** `Number(ev.date.slice(8, 10))`: the day written in the date. */
  function DayOf(e: Event): (d: nat)
    requires WellFormedDate(e.date)
    ensures d <= 99
  {
    TwoDigitValue(e.date[8..]);
    DecimalValue(e.date[8..])
  }

  /** The events of `events` whose date names day `d`, in input order. */
  function Bucket(events: seq<Event>, d: int): (b: seq<Event>)
    requires AllWellFormed(events)
    ensures |b| <= |events|
    ensures AllWellFormed(b) && forall i | 0 <= i < |b| :: DayOf(b[i]) == d
  {
    if events == [] then []
    else
      var last := events[|events| - 1];
      Bucket(events[..|events| - 1], d) + (if DayOf(last) == d then [last] else [])
  }

  /** An event is in a bucket exactly when it is in the input and its date names that day. */
  lemma {:induction false} BucketMembers(events: seq<Event>, d: int, e: Event)
    requires AllWellFormed(events)
    ensures e in Bucket(events, d) <==> e in events && DayOf(e) == d
  {
    if events != [] {
      var init := events[..|events| - 1];
      BucketMembers(init, d, e);
      assert events == init + [events[|events| - 1]];
    }
  }

  /** A day has a non-empty bucket exactly when some event's date names it. */
  lemma HasEventsOn(events: seq<Event>, d: int)
    requires AllWellFormed(events)
    ensures Bucket(events, d) != [] <==> exists e | e in events :: DayOf(e) == d
  {
    var b := Bucket(events, d);
    if b != [] {
      BucketMembers(events, d, b[0]);
    }
    forall e | e in events && DayOf(e) == d ensures b != [] {
      BucketMembers(events, d, e);
    }
  }

  /** No event is dropped or duplicated: a bucket holds every copy of its day's events and nothing else. */
  lemma {:induction false} BucketMultiplicity(events: seq<Event>, d: int, e: Event)
    requires AllWellFormed(events) && WellFormedDate(e.date)
    ensures multiset(Bucket(events, d))[e] == if DayOf(e) == d then multiset(events)[e] else 0
  {
    if events != [] {
      var init, last := events[..|events| - 1], events[|events| - 1];
      assert events == init + [last];
      var b, bInit := Bucket(events, d), Bucket(init, d);
      BucketMultiplicity(init, d, e);
      assert multiset(events)[e] == multiset(init)[e] + multiset{last}[e];
      if DayOf(last) == d {
        assert b == bInit + [last];
        assert multiset(b)[e] == multiset(bInit)[e] + multiset{last}[e];
      } else {
        assert b == bInit;
        assert last == e ==> DayOf(e) != d;
      }
    }
  }

  /** Buckets keep input order: the bucket of a concatenation is the concatenation of the buckets. */
  lemma {:induction false} BucketConcat(a: seq<Event>, b: seq<Event>, d: int)
    requires AllWellFormed(a) && AllWellFormed(b)
    ensures AllWellFormed(a + b)
    ensures Bucket(a + b, d) == Bucket(a, d) + Bucket(b, d)
  {
    if b != [] {
      var init := b[..|b| - 1];
      assert (a + b)[..|a + b| - 1] == a + init;
      BucketConcat(a, init, d);
    } else {
      assert a + b == a;
    }
  }

  /** Total size of the buckets of days `lo` up to but excluding `hi`. */
  function BucketSizes(events: seq<Event>, lo: int, hi: int): nat
    requires AllWellFormed(events)
    decreases hi - lo
  {
    if lo >= hi then 0 else |Bucket(events, lo)| + BucketSizes(events, lo + 1, hi)
  }

  /** Appending an event adds it to the end of its own day's bucket and to no other. */
  lemma BucketSnoc(events: seq<Event>, e: Event, d: int)
    requires AllWellFormed(events) && WellFormedDate(e.date)
    ensures AllWellFormed(events + [e])
    ensures Bucket(events + [e], d) == Bucket(events, d) + if DayOf(e) == d then [e] else []
  {
    var s := events + [e];
    assert AllWellFormed(s) by {
      forall x | x in s ensures WellFormedDate(x.date) { assert x in events || x == e; }
    }
    assert s[..|s| - 1] == events && s[|s| - 1] == e;
  }

  lemma {:induction false} BucketSizesSnoc(events: seq<Event>, e: Event, lo: int, hi: int)
    requires AllWellFormed(events) && WellFormedDate(e.date)
    ensures AllWellFormed(events + [e])
    ensures BucketSizes(events + [e], lo, hi) == BucketSizes(events, lo, hi) + if lo <= DayOf(e) < hi then 1 else 0
    decreases hi - lo
  {
    BucketSnoc(events, e, lo);
    if lo < hi {
      BucketSizesSnoc(events, e, lo + 1, hi);
    }
  }

  /** Every event lands in one of the buckets 0..99, so the bucket sizes add up to the number of events. */
  lemma {:induction false} BucketsPartition(events: seq<Event>)
    requires AllWellFormed(events)
    ensures BucketSizes(events, 0, 100) == |events|
  {
    if events == [] {
      BucketSizesEmpty(events, 0, 100);
    } else {
      var init, last := events[..|events| - 1], events[|events| - 1];
      assert events == init + [last];
      BucketSizesSnoc(init, last, 0, 100);
      BucketsPartition(init);
    }
  }

  lemma {:induction false} BucketSizesEmpty(events: seq<Event>, lo: int, hi: int)
    requires events == []
    ensures BucketSizes(events, lo, hi) == 0
    decreases hi - lo
  {
    if lo < hi { BucketSizesEmpty(events, lo + 1, hi); }
  }

  /** `byDay` holds, for every day with events in `events`, exactly that day's bucket. */
  ghost predicate Grouped(events: seq<Event>, byDay: map<int, seq<Event>>)
    requires AllWellFormed(events)
  {
    && (forall d :: d in byDay <==> Bucket(events, d) != [])
    && (forall d | d in byDay :: byDay[d] == Bucket(events, d))
  }

  /** One step of the grouping loop: pushing `e` onto its day's list, creating the list if missing, keeps the map grouped. */
  lemma GroupStep(events: seq<Event>, e: Event, byDay: map<int, seq<Event>>)
    requires AllWellFormed(events) && WellFormedDate(e.date) && Grouped(events, byDay)
    ensures AllWellFormed(events + [e])
    ensures var day := DayOf(e);
      Grouped(events + [e], byDay[day := (if day in byDay then byDay[day] else []) + [e]])
  {
    var day := DayOf(e);
    var next := byDay[day := (if day in byDay then byDay[day] else []) + [e]];
    BucketSnoc(events, e, day);
    forall d | d != day
      ensures d in next <==> Bucket(events + [e], d) != []
      ensures d in next ==> next[d] == Bucket(events + [e], d)
    {
      BucketSnoc(events, e, d);
    }
  }

  /**
   * `groupEventsByDay(events)`: a map from day number to that day's events.
   * A key is present exactly when its bucket is non-empty, so no empty
   * bucket is ever created.
   */
  method GroupEventsByDay(events: seq<Event>) returns (byDay: map<int, seq<Event>>)
    requires AllWellFormed(events)
    ensures forall d :: d in byDay <==> Bucket(events, d) != []
    ensures forall d | d in byDay :: byDay[d] == Bucket(events, d)
  {
    byDay := map[];
    var i := 0;
    while i < |events|
      invariant 0 <= i <= |events|
      invariant Grouped(events[..i], byDay)
    {
      var ev := events[i];
      var day := DayOf(ev);
      GroupStep(events[..i], ev, byDay);
      if day !in byDay {
        byDay := byDay[day := []];
      }
      byDay := byDay[day := byDay[day] + [ev]];
      assert events[..i + 1] == events[..i] + [ev];
      i := i + 1;
    }
    assert events[..i] == events;
  }

  /** With three events, a day's bucket is those of the three that fall on it, in input order. */
  lemma ThreeBucket(a: Event, b: Event, c: Event, d: int)
    requires AllWellFormed([a, b, c])
    ensures Bucket([a, b, c], d) ==
      (if DayOf(a) == d then [a] else []) + (if DayOf(b) == d then [b] else []) + (if DayOf(c) == d then [c] else [])
  {
    assert WellFormedDate(a.date) && WellFormedDate(b.date) && WellFormedDate(c.date);
    assert [] + [a] == [a] && [a] + [b] == [a, b] && [a, b] + [c] == [a, b, c];
    BucketSnoc([], a, d);
    BucketSnoc([a], b, d);
    BucketSnoc([a, b], c, d);
  }

  /** The example of a day appearing twice: days 5, 3, 5 give bucket 5 = [A, C] and bucket 3 = [B]. */
  lemma BucketExample()
    ensures var a, b, c := Event("2026-01-05", "A", None), Event("2026-01-03", "B", None), Event("2026-01-05", "C", None);
      Bucket([a, b, c], 5) == [a, c] && Bucket([a, b, c], 3) == [b] && Bucket([a, b, c], 4) == []
  {
    var a, b, c := Event("2026-01-05", "A", None), Event("2026-01-03", "B", None), Event("2026-01-05", "C", None);
    assert DayOf(a) == 5 by { TwoDigitValue(a.date[8..]); }
    assert DayOf(b) == 3 by { TwoDigitValue(b.date[8..]); }
    assert DayOf(c) == 5 by { TwoDigitValue(c.date[8..]); }
    ThreeBucket(a, b, c, 5);
    ThreeBucket(a, b, c, 3);
    ThreeBucket(a, b, c, 4);
  }
}
