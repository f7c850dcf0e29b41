# Seat selection, pricing and movie list ordering of a movie booking app

This project models, in Dafny, the client-side logic of a React movie booking
application that can be stated and proved on its own:

- **Booking page** (`movies/src/components/Bookings/Booking.js`): the seat
  category table (Diamond 1–10 at 300, Gold 11–30 at 200, Silver 31–50 at
  100), the seat grid drawn for each category, the check that a seat is
  already booked, the click handler that toggles a seat in the selection, the
  running total, the grouping of a movie's shows by theater, and the pay
  button that refuses an empty selection, sorts the selection and passes the
  total on.
- **Movie list page** (`movies/src/components/Movies/Movies.js`): the fetched
  list sorted newest first, and the effect that filters the list by a
  case-insensitive title search and sorts a copy by one of the orders
  `newest`, `oldest`, `a-z`, `z-a`.

The application has no seat hold, confirmation, expiry or exclusivity
mechanism in the client: the booking write is a plain POST, and the
"booked" check is a read of a fetched seat list. The model describes what
the code does, not such a protocol.

Files and modules:

- `Wrappers.dfy` — `Option` (a missing value) and `Result` (a refused action).
- `Sorting.dfy` — `Array.prototype.sort` with a comparator, modelled as a
  stable insertion sort `SortBy` (the ECMAScript sort is stable since
  ECMAScript 2019), with the lemmas that it returns a permutation, that the
  result is ordered when the comparator is a total preorder, that an
  ordered input is returned unchanged and that an all-zero comparator keeps
  the input order.
- `Seats.dfy` — pricing, the category table, the seat grid, the booked check,
  the selection toggle and the payment guard, as functions and lemmas, plus
  `CalculateTotalAmount`, the accumulator loop of the source.
- `Showtimes.dfy` — `groupShowsByTheater` as a method with two loops (fill
  the buckets in place, then sort each bucket), proved equal to the
  specification function `GroupShows`, and the lemmas about `GroupShows`.
- `BookingDialog.dfy` — the component's state (`selectedShow`,
  `selectedSeats`, `availableSeats`) as a class whose handlers update the
  fields in place, each tied to the functions of `Seats`.
- `Movies.dfy` — the search filter, the comparator of the four orders, the
  filtered-and-sorted view and the initial newest-first load.

Modelling choices:

- Seat numbers, release dates and show start times are integers (`new Date`
  parsing is not modelled; a date is its timestamp).
- `localeCompare` is a parameter of type `(string, string) -> int`; the
  ordering lemmas for `a-z` and `z-a` assume only that it is a total
  preorder.
- `toLowerCase` maps the letters A–Z to a–z and leaves every other character
  as it is.
- The source sorts arrays in place; a sorted array is `SortBy` of the old
  contents, and in the dialog the field is reassigned.

## Model

| member | source | states |
|---|---|---|
| Seats.CalculateTotalAmount | movies/src/components/Bookings/Booking.js:342-350 | the accumulator loop returns the sum of the per-seat tier prices of the selection |
| Seats.SeatPrice | movies/src/components/Bookings/Booking.js:345-347 | the per-seat tier of the running total; CategoriesPartitionSeats states it equals the table price on seats 1..50, PriceOutsideTable what it charges outside, TotalPriceBounds its range |
| Seats.TotalPrice | movies/src/components/Bookings/Booking.js:342-350 | the sum the accumulator loop computes; CalculateTotalAmount is proved equal to it, and TotalPriceAppend, TotalPricePermutation and TotalPriceBounds state its properties |
| Seats.TotalPriceAppend | movies/src/components/Bookings/Booking.js:342-350 | the total of two selections joined is the sum of their totals |
| Seats.TotalPricePermutation | movies/src/components/Bookings/Booking.js:342-350 | two selections with the same seats (any order) have the same total, so sorting never changes the amount |
| Seats.TotalPriceBounds | movies/src/components/Bookings/Booking.js:345-347 | every seat is charged between 100 and 300, so the total lies between 100 and 300 times the number of seats |
| Seats.FindCategory | movies/src/components/Bookings/Booking.js:353-357 | the table lookup returns a category of the table whose range holds the seat, and none exactly when no range holds it |
| Seats.CategoriesPartitionSeats | movies/src/components/Bookings/Booking.js:345-357 | the ranges start at 1, end at 50, are contiguous and disjoint; a seat has a category iff it is in 1..50, and its table price equals the tier price of the total |
| Seats.PriceOutsideTable | movies/src/components/Bookings/Booking.js:345-347 | the total does not validate seats: a seat below 1 has no category yet costs 300, a seat above 50 has none yet costs 100 |
| Seats.SeatRange | movies/src/components/Bookings/Booking.js:619 | the grid of a range has hi-lo+1 seats (none if hi < lo), holds exactly the seats lo..hi and lists them consecutively |
| Seats.SeatRangeSplit | movies/src/components/Bookings/Booking.js:619 | two adjacent ranges drawn one after the other give the joined range |
| Seats.SeatGrid | movies/src/components/Bookings/Booking.js:586-619 | the seat buttons category after category; GridIsOneToFifty states they are seats 1..50 in order |
| Seats.GridIsOneToFifty | movies/src/components/Bookings/Booking.js:586-619 | the grids of the three categories together are seats 1, 2, ..., 50 in order |
| Seats.FindBooked | movies/src/components/Bookings/Booking.js:620 | a record is found iff some fetched record has the seat number and status "booked"; the one found is such a record |
| Seats.IsBooked | movies/src/components/Bookings/Booking.js:620 | a seat is booked iff FindBooked finds a record with its number and status "booked" (FindBooked states both directions) |
| Seats.ClickSeat | movies/src/components/Bookings/Booking.js:634-635 | a click on a booked seat leaves the selection unchanged; otherwise it flips the seat's membership; no other seat's count changes |
| Seats.ClickKeepsBookedSeatsOut | movies/src/components/Bookings/Booking.js:620-635 | a selection with no booked seat has none after any click |
| Seats.RemoveSeat | movies/src/components/Bookings/Booking.js:335 | the filter that deselects a seat; RemoveSeatCounts states what it keeps, ToggleRemovesAt that it removes exactly one position in a duplicate-free selection |
| Seats.RemoveSeatCounts | movies/src/components/Bookings/Booking.js:335 | the filter removes every occurrence of the seat and keeps every other seat as often as it was |
| Seats.ToggleSeat | movies/src/components/Bookings/Booking.js:333-339 | after a click the seat is selected iff it was not before; every other seat keeps its count |
| Seats.ToggleRemovesAt | movies/src/components/Bookings/Booking.js:334-335 | clicking a selected seat (selection without duplicates) removes exactly that position and keeps the others in order |
| Seats.ToggleAppendsAbsent | movies/src/components/Bookings/Booking.js:336-337 | clicking an unselected seat appends it at the end |
| Seats.ToggleTwiceRestores | movies/src/components/Bookings/Booking.js:333-339 | clicking an unselected seat twice restores the selection exactly |
| Seats.ToggleKeepsNoDuplicates | movies/src/components/Bookings/Booking.js:333-339 | a selection without duplicates has none after a click |
| Seats.NoDuplicatesPermutation | movies/src/components/Bookings/Booking.js:685 | reordering a selection without duplicates (the in-place sort) gives one without duplicates |
| Seats.Ascending | movies/src/components/Bookings/Booking.js:685 | the numeric comparator of both selection sorts; AscendingIsTotalPreorder states it is a total preorder, ProceedToPayment that it sorts the seats ascending |
| Seats.AscendingIsTotalPreorder | movies/src/components/Bookings/Booking.js:685 | the numeric comparator `a - b` is a total preorder |
| Seats.ProceedToPayment | movies/src/components/Bookings/Booking.js:719-743 | an empty selection is refused with its message; otherwise the seats passed on are the selection sorted ascending, and the amount is the total of the selection and of the sorted seats |
| Showtimes.ShowsAt | movies/src/components/Bookings/Booking.js:287-292 | a theater's bucket holds only shows of that theater taken from the movie's shows |
| Showtimes.ShowsAtCount | movies/src/components/Bookings/Booking.js:287-292 | a theater's bucket keeps each of its shows as often as it occurs and no show of another theater |
| Showtimes.PushShow | movies/src/components/Bookings/Booking.js:288-292 | pushing the next show keeps the buckets equal to the per-theater lists of the shows seen so far |
| Showtimes.BucketShows | movies/src/components/Bookings/Booking.js:286-293 | the first loop ends with one bucket per theater name holding that theater's shows in order |
| Showtimes.SortEachBucket | movies/src/components/Bookings/Booking.js:295-297 | the second loop sorts every bucket by start time and keeps the same keys |
| Showtimes.GroupShows | movies/src/components/Bookings/Booking.js:283-300 | the grouping as a value; GroupShowsByTheater is proved equal to it, and GroupingKeepsEveryShow, GroupHoldsOnlyItsTheater and GroupsOrderedByStartTime state what it holds |
| Showtimes.GroupShowsByTheater | movies/src/components/Bookings/Booking.js:283-300 | the grouping returns the empty map without a movie or shows, otherwise each theater's shows sorted by start time |
| Showtimes.ByStartTime | movies/src/components/Bookings/Booking.js:296 | the start-time comparator; ByStartTimeIsTotalPreorder states it is a total preorder, GroupsOrderedByStartTime that each group is ordered by it |
| Showtimes.ByStartTimeIsTotalPreorder | movies/src/components/Bookings/Booking.js:296 | the start-time comparator is a total preorder |
| Showtimes.GroupingKeepsEveryShow | movies/src/components/Bookings/Booking.js:283-300 | every show is in the group of its theater as many times as it occurs: none lost, none duplicated |
| Showtimes.GroupHoldsOnlyItsTheater | movies/src/components/Bookings/Booking.js:283-300 | a group is non-empty and holds only shows of its own theater taken from the movie |
| Showtimes.GroupsOrderedByStartTime | movies/src/components/Bookings/Booking.js:295-297 | every group lists its shows by non-decreasing start time |
| BookingDialog.Dialog.constructor | movies/src/components/Bookings/Booking.js:256-258 | the dialog starts with no show, an empty selection and no seat records |
| BookingDialog.Dialog.HandleShowtimeClick | movies/src/components/Bookings/Booking.js:303-321 | without a logged-in user nothing changes; otherwise the show is chosen and the selection emptied |
| BookingDialog.Dialog.ReceiveSeats | movies/src/components/Bookings/Booking.js:324-330 | the fetched seat records replace the old ones and nothing else changes |
| BookingDialog.Dialog.HandleSeatClick | movies/src/components/Bookings/Booking.js:634 | the selection becomes ClickSeat of the old one, stays duplicate-free within the grid, and stays free of booked seats if it was |
| BookingDialog.Dialog.SortSelection | movies/src/components/Bookings/Booking.js:685 | the render sorts the selection ascending in place, keeping it valid and its total unchanged |
| BookingDialog.Dialog.Pay | movies/src/components/Bookings/Booking.js:721-744 | the pay action returns ProceedToPayment of the selection; on success the selection is left sorted, on refusal unchanged |
| BookingDialog.TotalFromCategoryTable | movies/src/components/Bookings/Booking.js:342-357 | for seats of the grid the running total equals the sum of the category table's prices |
| Sorting.Insert | movies/src/components/Movies/Movies.js:87-98 | inserting into a list adds exactly that element |
| Sorting.SortBy | movies/src/components/Movies/Movies.js:87-98 | the sorted copy is a permutation of its input |
| Sorting.InsertSorted | movies/src/components/Movies/Movies.js:87-98 | with a total-preorder comparator, inserting into an ordered list keeps it ordered |
| Sorting.InsertInFront | movies/src/components/Movies/Movies.js:87-98 | an element that goes no later than the head of an ordered list can go in front |
| Sorting.InsertBehind | movies/src/components/Movies/Movies.js:87-98 | a head that goes no later than everything inserted behind it keeps the list ordered |
| Sorting.SortBySorted | movies/src/components/Movies/Movies.js:87-98 | with a total-preorder comparator the sorted copy is ordered |
| Sorting.SortByKeepsSorted | movies/src/components/Bookings/Booking.js:729 | an already ordered list is returned unchanged (the second sort on pay moves nothing) |
| Sorting.SortByAllEqual | movies/src/components/Movies/Movies.js:97 | a comparator that answers 0 for every pair keeps the input order |
| Sorting.SortByIdempotent | movies/src/components/Bookings/Booking.js:729 | sorting a sorted result again changes nothing |
| Movies.ToLower | movies/src/components/Movies/Movies.js:83 | lower-casing keeps the length and leaves no letter A–Z |
| Movies.ToLowerIdempotent | movies/src/components/Movies/Movies.js:83 | lower-casing twice equals lower-casing once |
| Movies.Includes | movies/src/components/Movies/Movies.js:83 | the substring test; IncludesAt states it holds iff the term occurs at some index of the title |
| Movies.IncludesAt | movies/src/components/Movies/Movies.js:83 | `includes` holds iff the term occurs at some index of the title |
| Movies.MatchesSearch | movies/src/components/Movies/Movies.js:83 | the case-insensitive title test; FilterBySearch keeps exactly the movies it accepts, SearchIgnoresTermCase states the case of the term does not matter |
| Movies.SearchIgnoresTermCase | movies/src/components/Movies/Movies.js:83 | a search term and its lower-cased form select the same movies |
| Movies.FilterBySearch | movies/src/components/Movies/Movies.js:82-84 | the filtered list holds exactly the movies whose lower-cased title contains the lower-cased term, and is no longer than the list |
| Movies.FilterCount | movies/src/components/Movies/Movies.js:82-84 | a matching movie is kept as often as it occurs, a non-matching one not at all |
| Movies.FilterAppend | movies/src/components/Movies/Movies.js:82-84 | filtering distributes over concatenation, so the filtered list keeps the list's order |
| Movies.EmptySearchKeepsAll | movies/src/components/Movies/Movies.js:82-84 | an empty search term keeps every movie in order |
| Movies.MovieComparator | movies/src/components/Movies/Movies.js:87-98 | the comparator of the second effect; NewestOrder, OldestOrder, AToZOrder, ZToAOrder and UnknownOrderKeepsFilterOrder state the order each sort key gives |
| Movies.VisibleMovies | movies/src/components/Movies/Movies.js:80-101 | the shown list is a permutation of the filtered list and holds exactly the matching movies |
| Movies.NewestOrder | movies/src/components/Movies/Movies.js:88-89 | 'newest' shows release dates non-increasing |
| Movies.OldestOrder | movies/src/components/Movies/Movies.js:90-91 | 'oldest' shows release dates non-decreasing |
| Movies.AToZOrder | movies/src/components/Movies/Movies.js:92-93 | 'a-z' shows titles ascending under a total-preorder collation |
| Movies.ZToAOrder | movies/src/components/Movies/Movies.js:94-95 | 'z-a' shows titles descending under a total-preorder collation |
| Movies.UnknownOrderKeepsFilterOrder | movies/src/components/Movies/Movies.js:97 | any other sort key shows the filtered list in its own order |
| Movies.NewestFirst | movies/src/components/Movies/Movies.js:69 | the newest-first comparator of the load and of 'newest'; LoadMovies and NewestOrder state that sorting by it gives non-increasing release dates |
| Movies.LoadMovies | movies/src/components/Movies/Movies.js:69 | the loaded list is a permutation of the fetched one, ordered newest release first |
| Movies.InitialViewIsLoadedList | movies/src/components/Movies/Movies.js:62-71 | with the initial empty term and order 'newest' the page shows the loaded list exactly |

## Left out

- Rendering, styled components, MUI theming, animations, tooltips, the
  `alpha` colour helper and `getSeatCategoryColor`: display code with no
  effect on the selection or the amount.
- Date parsing and formatting (`new Date`, `toLocaleDateString`,
  `toLocaleTimeString`): dates are integer timestamps, so an unparsable date
  (a `NaN` difference in a comparator) is not modelled.
- `localeCompare`'s collation: a parameter; only its total-preorder property
  is used.
- Movies.ToLower: lower-cases only A–Z; the Unicode case mapping of
  `toLowerCase` (accented letters, special cases) is library behaviour.
- The HTTP calls (movie details, seat list, movie list), `localStorage`
  (the logged-in check is the `loggedIn` parameter of
  `HandleShowtimeClick`), toasts and navigation: network and ambient state.
  The seat fetch is asynchronous, so `ReceiveSeats` is a separate step; a
  selection made before it arrives is not re-checked, which is why "no
  booked seat selected" is stated per click and not as an invariant.
- BookingDialog.Dialog.HandleSeatClick: requires a seat of the grid (1..50),
  the only seats that have a button; the pure `ToggleSeat` and `ClickSeat`
  take any integer.
- BookingDialog.Dialog.Pay: requires a chosen show, since the dialog with the
  pay button only opens after one is chosen.
- Showtimes.GroupShowsByTheater: the buckets are a Dafny `map`, not a plain
  object. A theater named like a property of `Object.prototype`
  ("constructor", "toString", "valueOf", "hasOwnProperty", "__proto__", ...)
  finds that inherited value in the source, so no bucket is made and the
  `push` throws a `TypeError`; the model gives such a theater its own group.
  The map also has no key order, while the dialog lists theaters in the order
  of `Object.entries` (integer-like names ascending first, then the others in
  order of first appearance).
- A show without a `theater` field (a `TypeError` in the source) and a
  `shows` field that is present but not an array.
- The payment page, the profile pages, the admin pages, the header lookup,
  the server (Mongo transaction, JWT verification, routes): outside this
  model.
- Seat holds, their expiry and exclusivity between users: the code has no
  such mechanism, and concurrency is not modelled.
