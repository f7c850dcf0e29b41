/** The state of the booking dialog (the Booking component): the chosen show,
    the seat selection and the fetched seat records, and the handlers that
    change them. Each handler is a method whose contract gives the new state
    in terms of the functions of module Seats. */
module BookingDialog {
  import opened Wrappers
  import opened Sorting
  import opened Seats
  import opened Showtimes

  class Dialog {
    var selectedShow: Option<Show>
    var selectedSeats: seq<int>
    var availableSeats: seq<SeatRecord>

    /** The selection holds seats of the grid, each at most once. */
    ghost predicate Valid()
      reads this
    {
      && NoDuplicates(selectedSeats)
      && forall k :: 0 <= k < |selectedSeats| ==> 1 <= selectedSeats[k] <= 50
    }

    constructor ()
      ensures Valid()
      ensures selectedShow == None && selectedSeats == [] && availableSeats == []
    {
      selectedShow := None;
      selectedSeats := [];
      availableSeats := [];
    }

    /** handleShowtimeClick: without a logged-in user nothing changes (the
        page goes to the login screen); otherwise the show is chosen and the
        selection is emptied. The seat fetch it starts arrives later, as
        ReceiveSeats. */
    method HandleShowtimeClick(show: Show, loggedIn: bool)
      requires Valid()
      modifies this
      ensures Valid()
      ensures !loggedIn ==> selectedShow == old(selectedShow) && selectedSeats == old(selectedSeats)
      ensures loggedIn ==> selectedShow == Some(show) && selectedSeats == []
      ensures availableSeats == old(availableSeats)
    {
      if !loggedIn {
        return;
      }
      selectedShow := Some(show);
      selectedSeats := [];
    }

    /** The answer of the seat fetch replaces the seat records and nothing
        else: a click made before it arrives was checked against the old
        records. */
    method ReceiveSeats(seats: seq<SeatRecord>)
      requires Valid()
      modifies this
      ensures Valid()
      ensures availableSeats == seats
      ensures selectedShow == old(selectedShow) && selectedSeats == old(selectedSeats)
    {
      availableSeats := seats;
    }

    /** The click on a grid button: a booked seat ignores it, any other seat
        is toggled. */
    method HandleSeatClick(seat: int)
      requires Valid()
      requires 1 <= seat <= 50
      modifies this
      ensures Valid()
      ensures selectedSeats == ClickSeat(old(selectedSeats), availableSeats, seat)
      ensures NoneBooked(old(selectedSeats), availableSeats) ==> NoneBooked(selectedSeats, availableSeats)
      ensures selectedShow == old(selectedShow) && availableSeats == old(availableSeats)
    {
      if NoneBooked(selectedSeats, availableSeats) {
        ClickKeepsBookedSeatsOut(selectedSeats, availableSeats, seat);
      }
      ToggleKeepsNoDuplicates(selectedSeats, seat);
      ghost var was := selectedSeats;
      if !IsBooked(availableSeats, seat) {
        selectedSeats := ToggleSeat(selectedSeats, seat);
      }
      forall k | 0 <= k < |selectedSeats| ensures 1 <= selectedSeats[k] <= 50 {
        var y := selectedSeats[k];
        if y != seat {
          assert y in multiset(selectedSeats);
          assert y in multiset(was);
        }
      }
    }

    /** The summary sorts the selection in place when it is drawn. */
    method SortSelection()
      requires Valid()
      modifies this
      ensures Valid()
      ensures selectedSeats == SortBy(old(selectedSeats), Ascending)
      ensures TotalPrice(selectedSeats) == TotalPrice(old(selectedSeats))
      ensures selectedShow == old(selectedShow) && availableSeats == old(availableSeats)
    {
      ghost var was := selectedSeats;
      selectedSeats := SortBy(selectedSeats, Ascending);
      SeatsStayInGrid(was, selectedSeats);
      NoDuplicatesPermutation(was, selectedSeats);
      TotalPricePermutation(was, selectedSeats);
    }

    /** The pay button: refuse an empty selection; otherwise compute the
        total, sort the selection in place and hand both to the payment page. */
    method Pay() returns (outcome: Result<PaymentRequest, string>)
      requires Valid()
      requires selectedShow.Some?
      modifies this
      ensures Valid()
      ensures selectedShow == old(selectedShow) && availableSeats == old(availableSeats)
      ensures outcome == ProceedToPayment(old(selectedSeats), selectedShow.value.id)
      ensures outcome.Success? ==> selectedSeats == outcome.value.selectedSeats
      ensures outcome.Failure? ==> selectedSeats == old(selectedSeats)
    {
      if |selectedSeats| == 0 {
        return Failure(NoSeatSelected);
      }
      var totalAmount := CalculateTotalAmount(selectedSeats);
      SortSelection();
      outcome := Success(PaymentRequest(totalAmount, selectedSeats, selectedShow.value.id));
    }
  }

  /** Seats of the grid stay seats of the grid under any reordering. */
  lemma SeatsStayInGrid(a: seq<int>, b: seq<int>)
    requires multiset(a) == multiset(b)
    requires forall k :: 0 <= k < |a| ==> 1 <= a[k] <= 50
    ensures forall k :: 0 <= k < |b| ==> 1 <= b[k] <= 50
  {
    forall k | 0 <= k < |b| ensures 1 <= b[k] <= 50 {
      assert b[k] in multiset(a);
      var m :| 0 <= m < |a| && a[m] == b[k];
    }
  }

  /** The amount of a dialog whose selection is valid is the sum of the
      category table's prices of the selected seats. */
  lemma {:induction false} TotalFromCategoryTable(seats: seq<int>)
    requires forall k :: 0 <= k < |seats| ==> 1 <= seats[k] <= 50
    ensures TotalPrice(seats) == CategoryTotal(seats)
  {
    if seats != [] {
      CategoriesPartitionSeats();
      TotalFromCategoryTable(seats[..|seats| - 1]);
    }
  }

  /** Sum of the table prices of seats that are all in the table. */
  function CategoryTotal(seats: seq<int>): int
    requires forall k :: 0 <= k < |seats| ==> 1 <= seats[k] <= 50
  {
    if seats == [] then 0
    else
      CategoriesPartitionSeats();
      CategoryTotal(seats[..|seats| - 1]) + CategoryOf(seats[|seats| - 1]).value.price
  }
}
