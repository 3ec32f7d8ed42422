# Carreritas calendar — a verified model of the page logic

The page shows one year of events read from `events.json`, in two views:

- The **year view** shows a card per month. Each card has a small calendar grid, and a click on it moves to `#month/<id>`.
- The **month view** has the month's title and prev/next floating buttons. It shows a big grid and the list of the month's events, sorted by date, each with an icon chosen from its tag. A horizontal swipe moves to the neighbouring month.

`route` picks the view from the URL fragment.

This project restates that logic in Dafny and proves what it computes. Pages come out as data (cells, rows, titles, navigation targets), not as DOM nodes.

| file | module | what it models |
|---|---|---|
| `wrappers.dfy` | `Wrappers` | `Option` |
| `text.dfy` | `Text` | digit strings and their values, code-point string order, `includes`, ASCII `toLowerCase`, `join("\n")` / `split("\n")` |
| `calendar.dfy` | `Calendar` | `WEEKDAYS`, `daysInMonth`, `firstDayOfMonth`, written out with the day arithmetic of the host `Date` (ECMAScript `MakeDay`, the two-digit-year rule, 1970-01-01 a Thursday) |
| `events.dfy` | `Events` | the data file's records and `groupEventsByDay` |
| `grid.dfy` | `Grid` | `monthGrid`: blank cells, day cells, `has-event` flag and tooltip |
| `event_list.dfy` | `EventList` | the sorted event list of the month view, its labels and tag icons |
| `navigation.dfy` | `Navigation` | `setFloatingNav` and the swipe handlers of `enableSwipeForMonth` (a class whose fields are the handlers' shared variables) |
| `views.dfy` | `Views` | `route`, the month lookup, `renderYear` and `renderMonth` |

Stateful code is modelled imperatively:

- `groupEventsByDay` is a loop that fills a map.
- `monthGrid` is two loops that append cells.
- The event list is a loop that appends rows.
- The swipe handlers are methods that update the tracker's fields.

Each one is proved against a specification function. `Bucket` gives the events of one day, `DayCell` the cell of one day, and `SortByDate` is a stable insertion sort. Lemmas prove what those functions promise: partition, order, permutation, stability, round trips and calendar laws.

## Model

| member | source | states |
|---|---|---|
| `Calendar.WeekdayLabels` | app.js:1 | `WEEKDAYS` holds seven distinct one-letter headers, "D" (Sunday) first and "S" (Saturday) last, in the order `getDay()` numbers the days |
| `Calendar.MonthLength` | app.js:3-5 | a month has 28 to 31 days, and 29 exactly for February of a leap year |
| `Calendar.MonthsAccumulate` | app.js:3-5 | proof step: the days before month m+1 are the days before month m plus month m's length |
| `Calendar.LeapCountStep4` | app.js:3-8 | proof step: the count of 4-year leap days in the day-number formula steps up exactly in years divisible by 4 |
| `Calendar.LeapCountStep100` | app.js:3-8 | proof step: the century correction steps up exactly in years divisible by 100 |
| `Calendar.LeapCountStep400` | app.js:3-8 | proof step: the 400-year correction steps up exactly in years divisible by 400 |
| `Calendar.DivisibilityChain` | app.js:3-8 | proof step: a multiple of 400 is a multiple of 100, and a multiple of 100 is a multiple of 4 |
| `Calendar.DayFromYear` | app.js:3-8 | the day number of January 1st of a year (ECMAScript `DayFromYear`); `NewYearStep` and `DayFromYearCycle` fix its meaning |
| `Calendar.DayNumber` | app.js:3-8 | the day count of `new Date(y, m0, d)` (`MakeDay`: the month index rolls into neighbouring years); `MonthStep`, `LastDayOfMonth` and `WeekDayShift` fix its meaning |
| `Calendar.NewYearStep` | app.js:3-8 | the closed day-number formula for January 1st advances by exactly 365 or 366 days, as the leap rule says |
| `Calendar.WeekDay` | app.js:6-8 | a weekday is always one of the seven, 0 = Sunday |
| `Calendar.WeekDayShift` | app.js:6-8 | moving n days on moves the weekday n on, modulo 7 |
| `Calendar.WeekDayPeriodic` | app.js:6-8 | whole weeks leave the weekday unchanged |
| `Calendar.DaysInMonth` | app.js:3-5 | `daysInMonth` is always between 28 and 31 |
| `Calendar.MonthLengthRule` | app.js:3-5 | February has 29 days exactly in a leap year (of the year the index rolls into), April/June/September/November have 30, the others 31 |
| `Calendar.FirstDayOfMonth` | app.js:6-8 | `firstDayOfMonth` is an index into `WEEKDAYS` |
| `Calendar.MonthStep` | app.js:3-8 | the 1st of the next month comes exactly `daysInMonth` days after the 1st of this one, across year boundaries too |
| `Calendar.LastDayOfMonth` | app.js:3-5 | day 0 of the next month, which `new Date(y, m0 + 1, 0)` builds, is the same day as day `daysInMonth` of this month |
| `Calendar.NextMonthWeekday` | app.js:3-8 | the next month starts `daysInMonth` weekdays later |
| `Calendar.FourHundredYearCycle` | app.js:3-8 | month lengths and first weekdays repeat every 400 years |
| `Calendar.DayNumberCycle` | app.js:3-8 | 400 years are 146097 days, a whole number of weeks, with the same month lengths |
| `Calendar.LeapCycle` | app.js:3-5 | a year and the year 400 later are both leap or both not |
| `Calendar.DayFromYearCycle` | app.js:3-8 | January 1st moves 146097 days in 400 years |
| `Calendar.FullYear` | app.js:3-8 | the host's two-digit-year rule: a year argument 0..99 gains 1900, others stay, and the result is never itself a two-digit year |
| `Calendar.TwoDigitYears` | app.js:3-8 | a year argument 0..99 behaves as 1900..1999, so year 0 has a 28-day February |
| `Calendar.KnownDates` | app.js:1-8 | February 2024 has 29 days, February 2023 has 28, January 2026 has 31 and starts on a Thursday ("J"), and 2026-01-04 is a Sunday ("D") |
| `Text.DecimalValue` | app.js:13 | `Number` of a digit string ("" gives 0); its meaning is fixed by `TwoDigitValue`, `DecimalRoundTrip` and `DecimalValueInjective` |
| `Text.TwoDigitValue` | app.js:13 | a two-digit string is worth ten times its first digit plus its second |
| `Text.DecimalString` | app.js:76 | the text of a number is a non-empty digit string, one digit exactly below 10 |
| `Text.IntString` | app.js:76 | the text of a negative id is a minus sign followed by the digits of its magnitude |
| `Text.DecimalRoundTrip` | app.js:301 | reading back the digits of a number gives the number |
| `Text.DecimalValueInjective` | app.js:207 | equal-length digit strings with one value are equal |
| `Text.LexLe` | app.js:207 | the string order standing in for `localeCompare(...) <= 0`; the `LexLe` lemmas below make it a total order that is numeric order on equal-length digit strings |
| `Text.LexLeReflexive` | app.js:207 | every date string compares at or before itself |
| `Text.LexLeTotal` | app.js:207 | any two strings are comparable |
| `Text.LexLeAntisymmetric` | app.js:207 | strings comparing both ways are equal |
| `Text.LexLeTransitive` | app.js:207 | the string order is transitive |
| `Text.LexLeConcat` | app.js:207 | with equal-length first pieces, the first pieces decide unless equal, then the rests decide |
| `Text.LexLeDigits` | app.js:207 | on equal-length digit strings, string order is numeric order |
| `Text.Includes` | app.js:225-226 | `includes` is true exactly when the word occurs at some position |
| `Text.ToLowerAscii` | app.js:223 | lower-casing keeps the length, turns each capital ASCII letter into its own small letter, leaves no capital and changes nothing else |
| `Text.ToLowerAsciiIgnoresCase` | app.js:223 | strings that differ only in ASCII letter case lower-case to the same string |
| `Text.SplitLines` | app.js:46 | splitting always yields at least one line |
| `Text.SplitLinesNoBreak` | app.js:46 | a string without a break splits into itself |
| `Text.SplitLinesAtBreak` | app.js:46 | a break after a break-free line splits there |
| `Text.JoinLines` | app.js:46 | `join("\n")` of break-free lines has a line break exactly when there are two lines or more; `SplitJoinLines` is its inverse |
| `Text.SplitJoinLines` | app.js:46 | splitting joined break-free lines gives the lines back |
| `Events.DayOf` | app.js:13 | the day read from characters 8..9 of a date is at most 99 |
| `Events.Bucket` | app.js:12-15 | a day's bucket is no longer than the input, holds only well-formed events, and every one is dated that day |
| `Events.BucketMembers` | app.js:12-15 | an event is in a day's bucket exactly when it is an input event dated that day |
| `Events.HasEventsOn` | app.js:14 | a day's bucket is non-empty exactly when some event falls on it, so no empty bucket is created |
| `Events.BucketMultiplicity` | app.js:10-18 | a bucket holds every copy of its day's events and nothing else |
| `Events.BucketConcat` | app.js:12-15 | buckets keep input order: the bucket of a concatenation is the concatenation of buckets |
| `Events.BucketSnoc` | app.js:15 | proof step: pushing an event extends its own day's bucket by it and leaves the others alone |
| `Events.BucketSizesSnoc` | app.js:12-15 | one more event adds one to the total size of the buckets whose range holds its day |
| `Events.BucketsPartition` | app.js:10-18 | the buckets of days 0..99 together hold exactly as many events as the input |
| `Events.BucketSizesEmpty` | app.js:10-11 | proof step: no events, no bucket contents |
| `Events.GroupStep` | app.js:12-15 | proof step: one `set`-if-missing and `push` keeps every day's list equal to that day's bucket |
| `Events.GroupEventsByDay` | app.js:10-18 | the map has a key exactly for the days with events, and each key maps to that day's events in input order |
| `Events.ThreeBucket` | app.js:12-15 | proof step: with three events, a day's bucket is those of the three dated that day, in order |
| `Events.BucketExample` | app.js:10-18 | days 5, 3, 5 give bucket 5 = first and third event, bucket 3 = second, bucket 4 empty |
| `Grid.TagText` | app.js:46 | a tag prints as nothing only when it is the empty string; a missing tag prints as "undefined" |
| `Grid.EventLine` | app.js:46 | a tooltip line starts with the event's title and is longer than it (a tag part follows; `TagText` prints a missing tag as "undefined") |
| `Grid.Tooltip` | app.js:46 | a day without events has an empty tooltip, a day with one event has just its line; `TooltipLines` reads any tooltip back |
| `Grid.EventLines` | app.js:46 | one tooltip line per event, `title (tag)`, in order |
| `Grid.TooltipLines` | app.js:46 | with break-free titles and tags, the tooltip reads back as exactly those lines |
| `Grid.DayCell` | app.js:42-47 | a day cell is a numbered day cell for that day |
| `Grid.DayCellMeaning` | app.js:43-47 | a day cell is flagged exactly when some event falls on its day, and then its tooltip lists that day's events |
| `Grid.MonthGrid` | app.js:27-54 | the grid is `firstDayOfMonth` blanks followed by the cells of days 1..`daysInMonth`, each built from its bucket |
| `Grid.LayOutDays` | app.js:39-49 | the two loops lay out `first` blanks then one cell per day, given the grouped map |
| `Grid.CellFromGroups` | app.js:43-47 | proof step: the cell built from the grouped map (flagged when the day's list is non-empty) is the cell its bucket gives |
| `Grid.LayoutSnoc` | app.js:41-48 | proof step: appending the next day's cell extends the layout by one day |
| `Grid.JanuaryLayout` | app.js:27-49 | January 2026's grid is four blanks then 31 day cells |
| `Grid.PairBucket` | app.js:12-15 | with two events, a day's bucket is those of the two dated that day, in order |
| `Grid.PairTooltip` | app.js:46 | two events give a two-line tooltip |
| `Grid.SameDayPair` | app.js:43-47 | two events on one day: that cell is flagged with both lines in input order, the next day's cell is plain |
| `Grid.ExampleLines` | app.js:46 | proof step: the two example events print as "A (cumple)" and "B (feriado)" |
| `Grid.TwoEventsOneDay` | app.js:43-47 | "A (cumple)" and "B (feriado)" on the 5th give the tooltip "A (cumple)\nB (feriado)"; the 6th is plain |
| `Grid.JanuaryExample` | app.js:27-54 | in that January grid, cell 8 is the flagged 5th and cell 9 the plain 6th |
| `EventList.WithDate` | app.js:207 | the events picked for a date all carry that date |
| `EventList.DateLe` | app.js:207 | the comparator `a.date.localeCompare(b.date) <= 0`; its meaning on well-formed dates is `ChronologicalOrder` |
| `EventList.DateStringOrder` | app.js:207 | two `YYYY-MM-DD` strings compare by year digits, then month digits, then day digits |
| `EventList.FieldOrder` | app.js:207 | a fixed-width digit field compares as text as it does as a number |
| `EventList.ChronologicalOrder` | app.js:207 | for well-formed dates, string order is chronological order (year, then month, then day) |
| `EventList.Insert` | app.js:207 | inserting adds exactly one element |
| `EventList.InsertPermutes` | app.js:207 | inserting adds the element and loses none |
| `EventList.SortByDate` | app.js:207 | sorting keeps the length |
| `EventList.SortByDatePermutes` | app.js:207 | the sorted list is a permutation of the month's events |
| `EventList.InsertSorted` | app.js:207 | inserting into a sorted list keeps it sorted |
| `EventList.SortByDateSorted` | app.js:207 | the list comes out in date order |
| `EventList.WithDateConcat` | app.js:207 | picking one date's events distributes over concatenation |
| `EventList.WithDateNone` | app.js:207 | a list without that date has none of its events |
| `EventList.WithDateSingle` | app.js:207 | proof step: a single event is picked exactly when it has the date |
| `EventList.PlacedFirstIsAlone` | app.js:207 | an event placed before a later-starting sorted list has no same-dated event after it |
| `EventList.SortedTail` | app.js:207 | proof step: the tail of a sorted list is sorted |
| `EventList.InsertStable` | app.js:207 | inserting puts an event after every event of its own date already present |
| `EventList.SortByDateStable` | app.js:207 | the sort is stable: events of one date keep their input order |
| `EventList.InsertLast` | app.js:207 | proof step: an event no earlier than all others goes last |
| `EventList.SortByDateIdempotent` | app.js:207 | sorting an already sorted list changes nothing |
| `EventList.TwentiethAfterFifth` | app.js:207 | 2026-01-20 does not sort before 2026-01-05 |
| `EventList.SortExample` | app.js:207 | the 20th and the 5th given in that order come out 5th first |
| `EventList.NormalizedTag` | app.js:223 | `(ev.tag \|\| "").toLowerCase()` is empty for a missing tag; otherwise it has the tag's length, each capital ASCII letter becomes its small letter and every other character stays |
| `EventList.Classify` | app.js:223-226 | the kind of a tag; its meaning is `ClassifyByMentions`, `ClassifyIgnoresCase` and `HolidayTakesPriority` |
| `EventList.IconTitle` | app.js:229 | the icon's hover text is never empty, and it is the tag whenever the tag is non-empty |
| `EventList.IconOf` | app.js:224-226 | the three icon literals, one per kind; `IconsDistinct` proves the icon tells the kind |
| `EventList.TagIcon` | app.js:223-226 | the icon is the llama for a tag mentioning "feriado", else the cake for one mentioning "cumple", else the pin |
| `EventList.IconsDistinct` | app.js:224-226 | the three icons are different, so the icon tells the kind |
| `EventList.ClassifyIgnoresCase` | app.js:223-226 | two tags that differ only in letter case get the same icon |
| `EventList.ClassifyOfLowered` | app.js:223 | lower-casing a tag first does not change its kind |
| `EventList.CapitalisedTags` | app.js:223-226 | "FERIADO" is a holiday and "Cumple" a birthday |
| `EventList.HolidayTakesPriority` | app.js:225-226 | a tag naming both "feriado" and "cumple" gets the holiday icon |
| `EventList.ClassifyByMentions` | app.js:223-226 | the three icon kinds exactly: holiday iff "feriado" occurs, birthday iff no "feriado" but "cumple", pin iff neither |
| `EventList.GenericTags` | app.js:223-224 | a missing or empty tag gets the pin |
| `EventList.DayText` | app.js:216 | the label's day is two digits whose value is the event's day |
| `EventList.EventList` | app.js:206-237 | "Sin eventos 💤" exactly when the month has no events; otherwise one row per event of the date-sorted list, labelled `<month> <DD>`, with its title, icon and icon hover text |
| `Navigation.FloatingNavFor` | app.js:99-125 | a previous button exactly when past January, leading to the month before; a next button exactly before December, leading to the month after |
| `Navigation.NavStaysInYear` | app.js:103-122 | from a real month the buttons lead only to real months, and middle months have both |
| `Navigation.NavRoundTrip` | app.js:110-122 | previous then next returns to the same month |
| `Navigation.SwipeTracker.constructor` | app.js:258-261 | a new tracker starts at (0, 0), not tracking |
| `Navigation.SwipeTracker.TouchStart` | app.js:266-271 | touchstart records the point and starts tracking |
| `Navigation.SwipeScenario` | app.js:258-293 | in March: a touchend without touchstart does nothing, a 100px rightward swipe goes to February, a repeated touchend does nothing, a 150px vertical movement does nothing |
| `Navigation.SwipeTracker.TouchEnd` | app.js:273-293 | touchend stops tracking and moves nowhere without a tracked start or after more than 80px vertically; otherwise it moves to the previous month exactly on a >60px rightward swipe past January, to the next exactly on a >60px leftward swipe before December, and only to a month the floating buttons offer |
| `Views.NumberOf` | app.js:301 | `Number` of "" is 0; a string it reads as a number has no '/'; a negative reading starts with '-' |
| `Views.MonthHash` | app.js:76 | `#month/${id}` starts with `#month/`, carries a non-empty id after it, and that id has no '/' |
| `Views.StartsWith` | app.js:300 | `hash.startsWith(prefix)`; `Route` states its result through it |
| `Views.UpToSlash` | app.js:301 | the piece taken is a '/'-free prefix ending at the first '/' |
| `Views.UpToSlashOfNoSlash` | app.js:301 | a string without '/' is its own first piece |
| `Views.Route` | app.js:297-306 | the month view is chosen exactly when the fragment starts with `#month/`; an empty fragment counts as `#year` |
| `Views.DigitsHaveNoSlash` | app.js:301 | proof step: a digit string has no '/', so `split("/")` leaves it whole |
| `Views.NumberOfNegative` | app.js:301 | proof step: `Number` reads a minus sign followed by digits as the negated value of the digits |
| `Views.IntStringReadsBack` | app.js:76 | an id's text has no '/' and `Number` reads it back as the same id |
| `Views.RouteMonthHash` | app.js:76 | every fragment a card, a button or a swipe writes routes back to the month it names |
| `Views.RouteDefaults` | app.js:298-301 | "" and `#year` give the year view, `#month/` gives month 0, `#month/x` gives NaN |
| `Views.FindMonth` | app.js:144 | the lookup gives the first month with the id, or nothing exactly when no month has it |
| `Views.FindEachMonth` | app.js:144 | with distinct ids, each month's own id finds that month |
| `Views.CardOpensItsMonth` | app.js:75-77 | a card's fragment routes to a month view that finds that very card's month |
| `Views.RenderYear` | app.js:127-141 | `IsYearPage`: the title is `CALENDARIO CARRERITAS <year>`, and there is one card per month, in order, with its name, its `monthGrid` and a click target of `#month/<id>` |
| `Views.RenderMonth` | app.js:143-256 | `IsMonthPageFor`: "Mes no encontrado" exactly when the id is NaN or matches no month; otherwise `<name> <year>`, the floating buttons of that month, back to `#year`, its big grid, its event list, and swipes bound to its id |
| `Views.Dispatch` | app.js:297-306 | the year page exactly for fragments that route to the year view, and then the whole `renderYear` page (`IsYearPage`); for a `#month/` fragment, the whole `renderMonth` page of the id the fragment carries (`IsMonthPageFor`), "Mes no encontrado" included |

## Left out

- DOM construction, CSS classes, the `size` argument of `monthGrid`, the weekday header row of each grid, and the `month-hero` and `month-titles` markup. They are presentation; the model returns the content as data.
- `main`: fetching `events.json`, the error thrown when the fetch fails, the `hashchange` listener and setting an empty fragment to `#year`. These are I/O. `Route` treats an empty fragment as `#year` itself.
- Cover images (`month.image || "img/placeholder.webp"` and the `onerror` fallback). `Month.image` is carried but unused.
- The keyboard handler of the month cards (Enter/Space re-dispatch a click). It is event plumbing and leads to the same `MonthHash` target.
- What a previous view leaves on screen. `renderMonth`'s not-found path clears neither the floating buttons nor the title, and the model's pages do not include leftover DOM state.
- `Events.DayOf`, `Events.GroupEventsByDay`, `Grid.MonthGrid`, `EventList.EventList`, `Views.RenderYear`, `Views.RenderMonth` and `Views.Dispatch` require well-formed `YYYY-MM-DD` dates. The page does not check dates. On a malformed one, `Number()` can give `NaN` or a fractional day, and `localeCompare` compares arbitrary text. Neither is modelled.
- `Views.NumberOf` reads only an optional minus sign followed by digits (and "" as 0). Every other id text reads as `NaN`, including forms `Number()` reads as a number: surrounding whitespace, "+", decimals ("3.0"), exponents ("1e1"), hex ("0x3") and "Infinity". So for a hand-typed fragment such as `#month/+3` or `#month/3.0`, `Route`, `RenderMonth` and `Dispatch` give "Mes no encontrado" where the page shows that month. Fragments the page writes itself never take these forms (`RouteMonthHash`).
- `EventList.DateLe`: code-point order stands in for `localeCompare`. It agrees with UTF-16 code-unit order, and with `localeCompare`, on the ASCII digit-and-dash dates used here. It differs from code-unit order only when a character beyond U+FFFF meets one in U+E000..U+FFFF; locale collation of other text is not modelled.
- `Text.ToLowerAscii`: lower-cases ASCII letters only. JavaScript's `toLowerCase` also maps non-ASCII letters; the tag words it looks for are ASCII.
- `Calendar.DaysInMonth` and `Calendar.FirstDayOfMonth` assume integer arguments inside the host `Date` range (about ±275,000 years). The host cuts non-integer arguments toward zero (`ToIntegerOrInfinity` in `MakeDay`); the model takes integers. Non-finite arguments or results outside the range give `NaN`, which the model does not represent. Local time zones are not modelled. Only local calendar fields are read, so the zone matters only when it skipped a whole calendar day. Pacific/Kiritimati skipped 1994-12-31, and there `daysInMonth(1994, 11)` is 1, not the 31 the model gives.
- Touch coordinates are integers here, whereas the browser reports fractional pixels. The `passive` listener option and `changedTouches` selection are host details.
- `Map` iteration order is not modelled. The page only looks keys up.

Not modelled, and not part of this model: the HTML, the CSS and `events.json`.
