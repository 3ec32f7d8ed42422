/**
 * The two views and the dispatch between them: `route` reads the URL
 * fragment, `renderYear` shows one card per month, `renderMonth` looks the
 * month up by id and shows its title, floating navigation, big grid and
 * event list. Pages are returned as data instead of being written to the DOM.
 */
module Views {
  import opened Wrappers
  import opened Text
  import opened Events
  import opened Grid
  import opened EventList
  import opened Navigation

  const MONTH_PREFIX := "#month/"
  const YEAR_HASH := "#year"
  const NOT_FOUND := "Mes no encontrado"
  const YEAR_TITLE := "CALENDARIO CARRERITAS "

  // ---------------------------------------------------------------- routing

  /** Which view a URL fragment selects; `MonthView(None)` is a month id that reads as `NaN`. */
  datatype View = YearView | MonthView(id: Option<int>)

  predicate StartsWith(s: string, prefix: string)
  {
    |prefix| <= |s| && s[..|prefix|] == prefix
  }

  /**
   * `Number(s)` restricted to the forms the page itself writes: an optional
   * minus sign and digits give their value, and the empty string gives 0.
   * Every other string reads as `NaN` (`None`) here, including forms that
   * `Number` does read as a number ("+3", "3.0", "0x3", "1e1", " 3").
   */
  function NumberOf(s: string): (r: Option<int>)
    ensures s == "" ==> r == Some(0)
    ensures r.Some? ==> '/' !in s
    ensures r.Some? && r.value < 0 ==> s[0] == '-'
  {
    if AllDigits(s) then
      DigitsHaveNoSlash(s);
      Some(DecimalValue(s))
    else if |s| > 1 && s[0] == '-' && AllDigits(s[1..]) then
      DigitsHaveNoSlash(s[1..]);
      assert s == [s[0]] + s[1..];
      Some(-(DecimalValue(s[1..]) as int))
    else None
  }

  /** The text before the first '/', the whole string when it has none. */
  function UpToSlash(s: string): (r: string)
    ensures StartsWith(s, r)
    ensures '/' !in r
    ensures |r| < |s| ==> s[|r|] == '/'
  {
    if s == [] || s[0] == '/' then [] else [s[0]] + UpToSlash(s[1..])
  }

  /** The fragment a click on month `id` writes: `#month/${id}`. */
  function MonthHash(id: int): (h: string)
    ensures StartsWith(h, MONTH_PREFIX) && |h| > |MONTH_PREFIX|
    ensures '/' !in h[|MONTH_PREFIX|..]
  {
    IntStringReadsBack(id);
    var h := MONTH_PREFIX + IntString(id);
    assert h[|MONTH_PREFIX|..] == IntString(id);
    h
  }

  /**
   * `route`: an empty fragment counts as `#year`; a fragment starting with
   * `#month/` selects the month view with `Number(hash.split("/")[1])`;
   * anything else selects the year view.
   */
  function Route(hash: string): (v: View)
    ensures v.MonthView? <==> StartsWith(hash, MONTH_PREFIX)
  {
    var h := if hash == "" then YEAR_HASH else hash;
    if StartsWith(h, MONTH_PREFIX) then MonthView(NumberOf(UpToSlash(h[|MONTH_PREFIX|..])))
    else YearView
  }

  lemma UpToSlashOfNoSlash(s: string)
    requires '/' !in s
    ensures UpToSlash(s) == s
  {
    if s != [] {
      UpToSlashOfNoSlash(s[1..]);
      assert s == [s[0]] + s[1..];
    }
  }

  /** A string of digits contains no '/'. */
  lemma DigitsHaveNoSlash(s: string)
    requires AllDigits(s)
    ensures '/' !in s
  {
    forall i | 0 <= i < |s|
      ensures s[i] != '/'
    {
      assert IsDigit(s[i]);
    }
  }

  /** `Number` reads a minus sign followed by digits as the negated value of the digits. */
  lemma NumberOfNegative(d: string)
    requires |d| > 0 && AllDigits(d)
    ensures NumberOf("-" + d) == Some(-(DecimalValue(d) as int))
  {
    var s := "-" + d;
    assert s[1..] == d;
    assert !IsDigit(s[0]);
  }

  /** The text of an integer has no '/' and reads back, through `Number`, as the same integer. */
  lemma IntStringReadsBack(n: int)
    ensures '/' !in IntString(n)
    ensures NumberOf(IntString(n)) == Some(n)
  {
    var d := DecimalString(if n < 0 then -n else n);
    DigitsHaveNoSlash(d);
    if n < 0 {
      assert IntString(n) == "-" + d;
      DecimalRoundTrip(-n);
      NumberOfNegative(d);
    } else {
      assert IntString(n) == d;
      DecimalRoundTrip(n);
    }
  }

  /** Every fragment the navigation writes leads back to the month it names. */
  lemma RouteMonthHash(id: int)
    ensures Route(MonthHash(id)) == MonthView(Some(id))
  {
    var h := MonthHash(id);
    assert h[..|MONTH_PREFIX|] == MONTH_PREFIX && h[|MONTH_PREFIX|..] == IntString(id);
    IntStringReadsBack(id);
    UpToSlashOfNoSlash(IntString(id));
  }

  /** The year view is the default, and a bare or non-numeric month fragment finds no month number. */
  lemma RouteDefaults()
    ensures Route("") == YearView && Route(YEAR_HASH) == YearView
    ensures Route("#month/") == MonthView(Some(0))
    ensures Route("#month/x") == MonthView(None)
  {
    assert "#month/"[..7] == MONTH_PREFIX;
    assert "#month/x"[..7] == MONTH_PREFIX && "#month/x"[7..] == "x";
    assert UpToSlash("x") == "x" by { assert "x"[1..] == []; }
    assert !IsDigit('x');
  }

  // ----------------------------------------------------------------- lookup

  /** `data.months.find(m => m.id === id)`, as the position of the first month with that id. */
  function FindMonth(months: seq<Month>, id: int): (r: Option<nat>)
    ensures r.Some? ==> r.value < |months| && months[r.value].id == id
    ensures r.Some? ==> forall j | 0 <= j < r.value :: months[j].id != id
    ensures r.None? ==> forall j | 0 <= j < |months| :: months[j].id != id
  {
    if months == [] then None
    else if months[0].id == id then Some(0)
    else match FindMonth(months[1..], id)
      case Some(k) => Some(k + 1)
      case None => None
  }

  /** No two months of the file share an id. */
  predicate DistinctIds(months: seq<Month>)
  {
    forall i, j | 0 <= i < j < |months| :: months[i].id != months[j].id
  }

  /** With distinct ids, looking up a month's own id finds that month. */
  lemma FindEachMonth(months: seq<Month>, i: int)
    requires DistinctIds(months) && 0 <= i < |months|
    ensures FindMonth(months, months[i].id) == Some(i)
  {
  }

  /** The fragment a month card writes routes to a month view that finds that very month. */
  lemma CardOpensItsMonth(data: Dataset, i: int)
    requires DistinctIds(data.months) && 0 <= i < |data.months|
    ensures Route(MonthHash(data.months[i].id)) == MonthView(Some(data.months[i].id))
    ensures FindMonth(data.months, data.months[i].id) == Some(i)
  {
    RouteMonthHash(data.months[i].id);
    FindEachMonth(data.months, i);
  }

  // ------------------------------------------------------------------ pages

  /** A thumbnail of the year view: the month's name, small grid and the fragment a click writes. */
  datatype MonthCard = MonthCard(name: string, cells: seq<Cell>, clickTarget: string)

  datatype Page =
    | YearPage(title: string, cards: seq<MonthCard>)
    | MonthPage(title: string, nav: FloatingNav, backTarget: string, cells: seq<Cell>,
                list: EventListView, swipeMonth: int)
    | NotFound(message: string)

  /** The year page of `data`: its title, and one card per month in file order with its name, small grid and click target. */
  predicate IsYearPage(data: Dataset, page: Page)
    requires ValidDataset(data)
  {
    && page.YearPage?
    && page.title == YEAR_TITLE + IntString(data.year)
    && |page.cards| == |data.months|
    && forall i | 0 <= i < |data.months| ::
      && page.cards[i].name == data.months[i].name
      && page.cards[i].clickTarget == MonthHash(data.months[i].id)
      && IsMonthGrid(data.year, data.months[i], page.cards[i].cells)
  }

  /**
   * The page month `id` shows: "Mes no encontrado" exactly when the id is
   * `NaN` or no month has it; otherwise the first month with the id, with its
   * title, floating navigation, back target, big grid, event list and swipe month.
   */
  ghost predicate IsMonthPageFor(data: Dataset, id: Option<int>, page: Page)
    requires ValidDataset(data)
  {
    && (page.NotFound? || page.MonthPage?)
    && (page.NotFound? <==> id.None? || FindMonth(data.months, id.value).None?)
    && (page.NotFound? ==> page.message == NOT_FOUND)
    && (page.MonthPage? ==>
      var month := data.months[FindMonth(data.months, id.value).value];
      && page.title == month.name + " " + IntString(data.year)
      && page.nav == FloatingNavFor(month.id)
      && page.backTarget == YEAR_HASH
      && IsMonthGrid(data.year, month, page.cells)
      && IsEventListFor(month, page.list)
      && page.swipeMonth == month.id)
  }

  /** `renderYear`: one card per month, in file order, under the year's title. */
  method RenderYear(data: Dataset) returns (page: Page)
    requires ValidDataset(data)
    ensures IsYearPage(data, page)
  {
    var cards: seq<MonthCard> := [];
    for i := 0 to |data.months|
      invariant |cards| == i
      invariant forall k | 0 <= k < i ::
        && cards[k].name == data.months[k].name
        && cards[k].clickTarget == MonthHash(data.months[k].id)
        && IsMonthGrid(data.year, data.months[k], cards[k].cells)
    {
      var month := data.months[i];
      var mini := MonthGrid(data.year, month);
      cards := cards + [MonthCard(month.name, mini, MonthHash(month.id))];
    }
    page := YearPage(YEAR_TITLE + IntString(data.year), cards);
  }

  /**
   * `renderMonth(data, id)`: "Mes no encontrado" when no month has that id
   * (a `NaN` id never matches); otherwise the first month with the id, with
   * its floating navigation, a back button to `#year`, the big grid, the
   * event list, and swipe handling bound to the same month.
   */
  method RenderMonth(data: Dataset, id: Option<int>) returns (page: Page)
    requires ValidDataset(data)
    ensures IsMonthPageFor(data, id, page)
  {
    var found := if id.Some? then FindMonth(data.months, id.value) else None;
    if found.None? {
      page := NotFound(NOT_FOUND);
      return;
    }
    var month := data.months[found.value];
    assert AllWellFormed(month.events);
    var big := MonthGrid(data.year, month);
    var list := EventList.EventList(month);
    page := MonthPage(month.name + " " + IntString(data.year), FloatingNavFor(month.id), YEAR_HASH,
                      big, list, month.id);
  }

  /**
   * `route(data)`: the year page for a fragment that selects the year view,
   * otherwise the month page of the id the fragment carries.
   */
  method Dispatch(data: Dataset, hash: string) returns (page: Page)
    requires ValidDataset(data)
    ensures page.YearPage? <==> Route(hash) == YearView
    ensures Route(hash) == YearView ==> IsYearPage(data, page)
    ensures Route(hash).MonthView? ==> IsMonthPageFor(data, Route(hash).id, page)
    ensures page.MonthPage? ==> Route(hash).MonthView? && Route(hash).id == Some(page.swipeMonth)
  {
    match Route(hash)
    case YearView =>
      page := RenderYear(data);
    case MonthView(id) =>
      page := RenderMonth(data, id);
  }
}
