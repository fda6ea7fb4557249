# Financial-product list and spending calendar, modelled in Dafny

This project models the two pieces of real logic in a front-end mock-up of a
personal-finance web app.

- **The gift page's financial-product list** (`src/components/GiftPage.tsx`):
  - the product record and the four products the page starts with;
  - `handleFavoriteToggle`, which maps over the list by id;
  - `favoriteProducts`, a `filter`;
  - `filteredAndSortedProducts`. It copies the list, filters it by category
    unless the filter is `'all'`, and sorts the copy in place with the
    comparator `multiplier * (a[key] - b[key])`;
  - the sort button's click handler, which flips the sort option and the
    direction together, and the label it shows;
  - `getTagClasses`, the tag-colour table with its grey default.
- **The analysis page's month calendar** (`src/components/AnalysisPage.tsx`):
  - `renderCalendarDays`, which emits `firstDayOfWeek` blanks and then the
    day numbers `1..totalDays`;
  - the weekday of the 1st and the "day 0 of the next month" idiom that
    these two numbers come from;
  - the `isToday` test of a cell;
  - the `index % 7` Sunday/Saturday colouring;
  - `handleMonthChange`, which calls `setMonth(getMonth() + direction)`.

The modules follow the program's structure:

- `Sequences` (`sequences.dfy`) holds `Array.prototype.filter` and the
  "keeps the original order" relation.
- `GiftPage` (`gift_page.dfy`) holds:
  - the product record and the initial products;
  - the favourite toggle, the favourites and the category filter;
  - the sort state, its toggle and its label;
  - the tag-colour lookup.
- `GiftSort` (`gift_sort.dfy`) holds:
  - the comparator;
  - `StableSort`, a functional model of the stable sort that
    `Array.prototype.sort` does with that comparator;
  - the in-place insertion sort on an `array`, proved to produce
    `StableSort`;
  - the method for the page's whole filter-then-sort computation.
- `GiftState` (`gift_state.dfy`) is the page's component state as a class
  with four fields. Each handler is a method that replaces one state field
  or both sort fields.
- `Dates` (`dates.dfy`) holds the calendar arithmetic of JavaScript's `Date`
  on integer day numbers:
  - the abstract operations DayFromYear, MakeDay and WeekDay of the
    ECMAScript Language Specification;
  - the `Date` constructor's two-digit-year rule;
  - `Date.prototype.setMonth`.
- `AnalysisPage` (`analysis_page.dfy`) holds:
  - the grid cells and the weekday and month-length inputs of the grid;
  - the cell colouring and the `isToday` test;
  - the page state as a class. It has the month-change handler and the
    grid-building loop.

Interest rates are integers in hundredths of a percent, so the page's `4.5`
is `450`. The sort is specified by its result. The result is sorted under the
comparator. It is a permutation of the filtered list. For every key, the
products with that key keep their input order, as the stable sort of ES2019
and later requires.

A `Date` is a `(year, month, day)` triple with a 0-based month, as
`getFullYear`, `getMonth` and `getDate` return it. `new Date(year, month, d)`
is modelled faithfully, including its rule that a year in 0..99 means
1900 + year (`MakeFullYear`). So for a shown year in 0..99 the grid is laid
out for 1900 + year, while `isToday` compares the unconverted year.

`getDate()` of `new Date(year, month + 1, 0)` is pinned down by two facts:

- `TotalDays` is a valid day of the month whose day number is
  MakeDay(year, month + 1, 0);
- no other valid date has that day number (`LastDayIsUnique`, which uses
  `DayNumberInjective`).

## Model

| member | source | states |
|---|---|---|
| Sequences.Filter | src/components/GiftPage.tsx:96 | `filter` returns a sub-multiset of the input. Its elements are input elements that satisfy the predicate, and it is no longer than the input |
| Sequences.FilterMultiplicity | src/components/GiftPage.tsx:96 | `filter` keeps every copy of an element that passes and drops every copy of one that does not |
| Sequences.FilterIsSubsequence | src/components/GiftPage.tsx:96 | `filter` keeps the input order: its result is a subsequence of the input |
| Sequences.FilterConcat | src/components/GiftPage.tsx:96 | filtering a concatenation is the concatenation of the filtered parts |
| GiftPage.ToggleFavorite | src/components/GiftPage.tsx:80-88 | same length and order. `isFavorite` is negated exactly where `id == productId`. Every other field of every product is unchanged |
| GiftPage.ToggleFavoriteTwice | src/components/GiftPage.tsx:81-86 | toggling the same id twice restores the list |
| GiftPage.ToggleFavoriteAbsent | src/components/GiftPage.tsx:81-86 | toggling an id that no product has changes nothing |
| GiftPage.FavoriteProducts | src/components/GiftPage.tsx:110 | exactly the favourite products, in list order, with every copy kept |
| GiftPage.CategoryFiltered | src/components/GiftPage.tsx:92-97 | with `'all'`, the whole list. Otherwise exactly the products whose category is the filter value, in order and with every copy |
| GiftPage.UnknownCategorySelectsNothing | src/components/GiftPage.tsx:95-96 | a filter value that names no category selects no product |
| GiftPage.ToggleSort | src/components/GiftPage.tsx:160-163 | a click changes both the option and the direction |
| GiftPage.ReachableSortStates | src/components/GiftPage.tsx:160-163 | from the initial `('rate','desc')`, an even number of clicks gives `('rate','desc')` and an odd number gives `('amount','asc')` |
| GiftPage.TagClasses | src/components/GiftPage.tsx:115-126 | as written: the table's class string for red, blue, green and purple. An inherited member exactly for `Object.prototype`'s property names. The grey default exactly for every other string |
| GiftPage.TagClassesInheritedName | src/components/GiftPage.tsx:123-125 | `"toString"` yields the inherited member, not the grey default |
| GiftPage.OwnTagClasses | src/components/GiftPage.tsx:115-126 | the intended lookup: the four table entries, and the grey default exactly for every other string |
| GiftPage.TagLookupsAgree | src/components/GiftPage.tsx:115-126 | the two lookups agree on every string that is not an inherited property name |
| GiftSort.Multiplier | src/components/GiftPage.tsx:102 | the multiplier is 1 or -1 |
| GiftSort.CompareIsRankDifference | src/components/GiftPage.tsx:103 | the comparator is the difference of two ranks (multiplier × key), and swapping its arguments negates it |
| GiftSort.CompareTransitive | src/components/GiftPage.tsx:103 | the comparator's "not after" relation is transitive, so with the rank difference it is a consistent comparator |
| GiftSort.InsertSorted | src/components/GiftPage.tsx:100-104 | inserting into a sorted sequence keeps it sorted |
| GiftSort.InsertStable | src/components/GiftPage.tsx:100-104 | inserting keeps, for every key, the order of equal-key products |
| GiftSort.StableSortSorted | src/components/GiftPage.tsx:100-104 | every pair `i < j` of the sort's output has `multiplier * (key(a) - key(b)) <= 0` |
| GiftSort.StableSortPermutes | src/components/GiftPage.tsx:100-104 | the sort's output is a permutation of its input |
| GiftSort.StableSortStable | src/components/GiftPage.tsx:100-104 | for every key, the products with that key keep their input order |
| GiftSort.DescSortsAscending | src/components/GiftPage.tsx:102-103 | as written, sorted under `'desc'` means the keys do not decrease |
| GiftSort.AscSortsDescending | src/components/GiftPage.tsx:102-103 | as written, sorted under `'asc'` means the keys do not increase |
| GiftSort.InitialOrderIsLowestRateFirst | src/components/GiftPage.tsx:100-104 | in the initial state the label says "highest rate first" (금리 높은순), yet the sort lists 2.5%, 3.8%, 4.5%, 7.2% |
| GiftSort.IntendedMultiplier | src/components/GiftPage.tsx:166-170 | the multiplier the labels call for is the negation of the one written |
| GiftSort.IntendedOrderMatchesLabel | src/components/GiftPage.tsx:166-170 | with the intended multiplier, sorted means highest key first for `'desc'` and lowest first for `'asc'` |
| GiftSort.Swap | src/components/GiftPage.tsx:100 | the array with elements `i` and `j` exchanged |
| GiftSort.InsertInPlace | src/components/GiftPage.tsx:100-104 | the in-place insertion step turns `a[..i+1]` into the functional insertion of `a[i]` into the sorted `a[..i]`, and leaves the rest of the array alone |
| GiftSort.SortInPlace | src/components/GiftPage.tsx:100-104 | `result.sort(comparator)` in place: the array ends as `StableSort` of its old contents |
| GiftSort.FilteredAndSorted | src/components/GiftPage.tsx:91-107 | `filteredAndSortedProducts`. The stable sort of the category-filtered list: sorted under the comparator, a permutation of the filtered list, equal keys in input order. The state's `products` is left alone because the sort runs on a copy |
| GiftState.GiftPageState.constructor | src/components/GiftPage.tsx:19-77 | the initial products, the `'all'` filter and the `('rate','desc')` sort |
| GiftState.GiftPageState.HandleFavoriteToggle | src/components/GiftPage.tsx:80-88 | the list becomes `ToggleFavorite` of the old list, and the other three fields are unchanged |
| GiftState.GiftPageState.SetCategoryFilter | src/components/GiftPage.tsx:147 | only the filter changes |
| GiftState.GiftPageState.ClickSortToggle | src/components/GiftPage.tsx:160-163 | both sort fields flip together, and the list and filter are unchanged |
| GiftState.GiftPageState.Displayed | src/components/GiftPage.tsx:91-107 | the list shown is the sorted, permuted, filtered list, and the state is untouched |
| Dates.DaysInMonth | src/components/AnalysisPage.tsx:23 | a month has 28 to 31 days, and fewer than 30 only for February |
| Dates.WeekDay | src/components/AnalysisPage.tsx:25 | `getDay()` is in 0..6 |
| Dates.TwoDigitYearMonths | src/components/AnalysisPage.tsx:22-23 | `new Date(year, …)` reads a year in 0..99 as 1900 + year. For years 1..99 that leaves every month length unchanged. For year 0 only February differs, because year 0 is a leap year and 1900 is not |
| Dates.DayFromYearStep | src/components/AnalysisPage.tsx:22-23 | consecutive New Year's days lie one year's length apart |
| Dates.NextMonth | src/components/AnalysisPage.tsx:23 | the month after a month is the next month index, and the year carries |
| Dates.NextMonthStart | src/components/AnalysisPage.tsx:23 | the next month starts one month's length after this one |
| Dates.DayZeroIsLastDay | src/components/AnalysisPage.tsx:23-26 | `new Date(y, m + 1, 0)` is the day number of the month's last valid day |
| Dates.MonthStartsIncrease | src/components/AnalysisPage.tsx:26 | every day of an earlier month comes before the first of a later month |
| Dates.DayNumberInjective | src/components/AnalysisPage.tsx:26 | distinct valid dates have distinct day numbers, so `getDate()` of a day number is determined |
| Dates.WeekdayInMonth | src/components/AnalysisPage.tsx:25 | day `d` of a month falls `d - 1` weekdays after the 1st |
| Dates.SetMonth | src/components/AnalysisPage.tsx:11 | `setMonth(month)` gives a valid date at day number MakeDay(year, month, day). If the day exists in the target month, the day is kept and the month index `year*12 + month` moves to the target, with the year carrying. Otherwise the date rolls by the surplus into the month after |
| Dates.KnownWeekdays | src/components/AnalysisPage.tsx:25 | 1970-01-01 was a Thursday, 2000-01-01 a Saturday, 2024-02-29 a Thursday and 2026-10-14 a Wednesday |
| AnalysisPage.FirstDayOfWeek | src/components/AnalysisPage.tsx:22-25 | `firstDayOfWeek` is in 0..6, so there are fewer than seven leading blanks |
| AnalysisPage.TotalDays | src/components/AnalysisPage.tsx:23-26 | `totalDays` is in 28..31, and it is the valid day of the month that has the day number of "day 0 of the next month" |
| AnalysisPage.LastDayIsUnique | src/components/AnalysisPage.tsx:23-26 | the only valid date with that day number is `(year, month, totalDays)` |
| AnalysisPage.GridCell | src/components/AnalysisPage.tsx:28-34 | a cell is blank exactly before `firstDayOfWeek`, and after it holds `index - firstDayOfWeek + 1` |
| AnalysisPage.WeekdayColumn | src/components/AnalysisPage.tsx:115-116 | for a cell with a day, `index % 7` is that date's weekday |
| AnalysisPage.WeekendColouring | src/components/AnalysisPage.tsx:115-116 | a day cell is red exactly on a Sunday and blue exactly on a Saturday |
| AnalysisPage.TodayHighlight | src/components/AnalysisPage.tsx:103-108 | a cell is today's exactly when the shown year and month are today's and the cell is at `firstDayOfWeek + today.day - 1` |
| AnalysisPage.TodayShownOnce | src/components/AnalysisPage.tsx:103-108 | when the page shows today's month of any year but 0, exactly one cell is highlighted |
| AnalysisPage.YearZeroLeapDayNotShown | src/components/AnalysisPage.tsx:22-26 | on February 29 of year 0 the grid is laid out for February 1900, which has 28 days, so no cell is highlighted |
| AnalysisPage.MonthChangeRoundTrip | src/components/AnalysisPage.tsx:8-14 | for a day of the month up to 28, next month then previous month restores the date |
| AnalysisPage.MonthChangeOverflow | src/components/AnalysisPage.tsx:11 | the next month from 2025-01-31 is 2025-03-03, because the day rolls over |
| AnalysisPage.MonthChangeBack | src/components/AnalysisPage.tsx:11 | the previous month from 2025-03-03 is 2025-02-03, so the round trip does not hold in general |
| AnalysisPage.CalendarPage.constructor | src/components/AnalysisPage.tsx:5 | the page opens on the given date |
| AnalysisPage.CalendarPage.HandleMonthChange | src/components/AnalysisPage.tsx:8-14 | the current date becomes `SetMonth(old date, old month + direction)` and stays valid |
| AnalysisPage.CalendarPage.RenderCalendarDays | src/components/AnalysisPage.tsx:18-37 | the array has length `firstDayOfWeek + totalDays`. Indices `0..firstDayOfWeek-1` are blanks, and index `firstDayOfWeek + d - 1` holds `d` for every `d` in `1..totalDays` |

## Left out

- The rendering is not modelled: JSX, the Tailwind class strings, icons and
  hover styles. The exceptions are the `getTagClasses` table and the
  `index % 7` text colour of day cells. The weekday header's colours are
  layout only.
- React's `useState`/`useMemo` plumbing is modelled as class fields and
  methods. Memoisation and re-rendering are not modelled.
- The clock and the time zone are not modelled. `new Date()` at
  AnalysisPage.tsx:5 and :103 becomes the constructor's `now` parameter and
  the `today` parameter. Dates are whole days with no time of day.
- The `Date` range limit (TimeClip) and invalid dates are not modelled,
  because every date the page builds comes from a valid one.
- `toLocaleString` and the other display formatting are not modelled; they
  are locale-dependent library calls.
- Floating-point interest rates are modelled as integers in hundredths of a
  percent.
- The engine's sort algorithm is not modelled. The model is an insertion
  sort. Its output is sorted, a permutation, and keeps equal keys in input
  order. The model does not prove that these three properties determine the
  output uniquely.
- The other pages and the navigation are not modelled: home, profile, list,
  transactions, header, bottom navigation and the app shell. They are
  static markup or page switching.
- No goal, streak, points, reward or challenge engine exists in the
  component source.
- AnalysisPage.TotalDays: requires a month in 0..11, which `getMonth()`
  always returns.
- AnalysisPage.TodayShownOnce: excludes year 0. There the grid is laid out
  for 1900, whose February is one day shorter, and YearZeroLeapDayNotShown
  shows that February 29 of year 0 then has no highlighted cell.

## Findings

| source | as written | input that shows it | evidently intended | confidence | as-written member | corrected member |
|---|---|---|---|---|---|---|
| src/components/GiftPage.tsx:102 | `multiplier` is `1` for `'desc'`, so the comparator `a - b` sorts ascending while the label reads "높은순" (highest first) | the initial state `('rate','desc')` on the four initial products lists 2.5%, 3.8%, 4.5%, 7.2% | `'desc'` puts the highest key first: multiplier `-1` for `'desc'` and `1` for `'asc'` | high; not executed | GiftSort.InitialOrderIsLowestRateFirst | GiftSort.IntendedMultiplier |
| src/components/GiftPage.tsx:123 | `color in tagColorClasses` also finds names inherited from `Object.prototype` | `getTagClasses("toString")` returns the inherited function instead of the grey default | only the table's own keys select a class, and every other string gets `'bg-gray-100 text-gray-600'` | medium; not executed | GiftPage.TagClassesInheritedName | GiftPage.OwnTagClasses |
