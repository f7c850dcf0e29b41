/** Seat selection and pricing of the booking dialog (Booking.js): the seat
    categories and their prices, the seat grid drawn for each category, the
    check that a seat is already booked, toggling a seat in the selection,
    the running total and the guard in front of the payment page. */
module Seats {
  import opened Wrappers
  import opened Sorting

  /** One record of the seat list fetched for a show. */
  datatype SeatRecord = SeatRecord(seatNumber: int, status: string)

  /** A row of the category table: an inclusive seat range and its price. */
  datatype SeatCategory = SeatCategory(lo: int, hi: int, name: string, price: int)

  /** What the pay action hands to the payment page. */
  datatype PaymentRequest = PaymentRequest(totalAmount: int, selectedSeats: seq<int>, showId: string)

  const SeatCategories: seq<SeatCategory> := [
    SeatCategory(1, 10, "Diamond", 300),
    SeatCategory(11, 30, "Gold", 200),
    SeatCategory(31, 50, "Silver", 100)
  ]

  const NoSeatSelected: string := "Please select at least one seat"

  // ---------------------------------------------------------------- pricing

  /** The per-seat price of the running total: a three-way tier on the seat
      number alone, with no check that the seat exists. */
  function SeatPrice(seat: int): int {
    if seat <= 10 then 300
    else if seat <= 30 then 200
    else 100
  }

  /** Sum of the per-seat prices, in the order of the selection. */
  function TotalPrice(seats: seq<int>): int {
    if seats == [] then 0
    else TotalPrice(seats[..|seats| - 1]) + SeatPrice(seats[|seats| - 1])
  }

  /** calculateTotalAmount: an accumulator over the selection. */
  method CalculateTotalAmount(selectedSeats: seq<int>) returns (total: int)
    ensures total == TotalPrice(selectedSeats)
  {
    total := 0;
    for i := 0 to |selectedSeats|
      invariant total == TotalPrice(selectedSeats[..i])
    {
      var seat := selectedSeats[i];
      if seat <= 10 {
        total := total + 300;
      } else if seat <= 30 {
        total := total + 200;
      } else {
        total := total + 100;
      }
      assert selectedSeats[..i + 1][..i] == selectedSeats[..i];
    }
    assert selectedSeats[..|selectedSeats|] == selectedSeats;
  }

  lemma {:induction false} TotalPriceAppend(a: seq<int>, b: seq<int>)
    ensures TotalPrice(a + b) == TotalPrice(a) + TotalPrice(b)
  {
    if b != [] {
      var b' := b[..|b| - 1];
      var ab := a + b;
      assert ab[..|ab| - 1] == a + b';
      assert ab[|ab| - 1] == b[|b| - 1];
      assert TotalPrice(ab) == TotalPrice(a + b') + SeatPrice(b[|b| - 1]);
      TotalPriceAppend(a, b');
    } else {
      assert a + b == a;
    }
  }

  /** The total does not depend on the order of the selection, so sorting the
      selection (on render and again on pay) never changes the amount. */
  lemma {:induction false} TotalPricePermutation(a: seq<int>, b: seq<int>)
    requires multiset(a) == multiset(b)
    ensures TotalPrice(a) == TotalPrice(b)
  {
    if a != [] {
      var x := a[|a| - 1];
      var a' := a[..|a| - 1];
      assert a == a' + [x];
      assert x in multiset(b);
      var k :| 0 <= k < |b| && b[k] == x;
      var b' := b[..k] + b[k + 1..];
      assert b == b[..k] + [x] + b[k + 1..];
      assert multiset(a) == multiset(a') + multiset{x};
      assert multiset(b) == multiset(b[..k]) + multiset{x} + multiset(b[k + 1..]);
      assert multiset(b') == multiset(b[..k]) + multiset(b[k + 1..]);
      forall y ensures multiset(a')[y] == multiset(b')[y] {
        assert multiset(a)[y] == multiset(b)[y];
      }
      assert multiset(a') == multiset(b');
      TotalPricePermutation(a', b');
      TotalPriceAppend(b[..k], [x]);
      TotalPriceAppend(b[..k] + [x], b[k + 1..]);
      TotalPriceAppend(b[..k], b[k + 1..]);
    }
  }

  /** Every seat costs between 100 and 300. */
  lemma {:induction false} TotalPriceBounds(seats: seq<int>)
    ensures 100 * |seats| <= TotalPrice(seats) <= 300 * |seats|
  {
    if seats != [] {
      TotalPriceBounds(seats[..|seats| - 1]);
    }
  }

  // ------------------------------------------------------ the category table

  predicate InCategory(c: SeatCategory, seat: int) {
    c.lo <= seat <= c.hi
  }

  /** The first category of `cats` whose range holds `seat`. */
  function FindCategory(cats: seq<SeatCategory>, seat: int): (r: Option<SeatCategory>)
    ensures r.Some? ==> r.value in cats && InCategory(r.value, seat)
    ensures r.None? <==> forall k :: 0 <= k < |cats| ==> !InCategory(cats[k], seat)
  {
    if cats == [] then None
    else if InCategory(cats[0], seat) then Some(cats[0])
    else FindCategory(cats[1..], seat)
  }

  function CategoryOf(seat: int): Option<SeatCategory> {
    FindCategory(SeatCategories, seat)
  }

  /** The three ranges are contiguous: seats 1..50 with no gap and no overlap,
      and the table's price of every seat in 1..50 is the price the running
      total charges for it. */
  lemma CategoriesPartitionSeats()
    ensures SeatCategories[0].lo == 1 && SeatCategories[|SeatCategories| - 1].hi == 50
    ensures forall k :: 0 <= k < |SeatCategories| - 1 ==>
      SeatCategories[k].hi + 1 == SeatCategories[k + 1].lo
    ensures forall i, j, seat ::
      (0 <= i < |SeatCategories| && 0 <= j < |SeatCategories| &&
       InCategory(SeatCategories[i], seat) && InCategory(SeatCategories[j], seat)) ==> i == j
    ensures forall seat :: CategoryOf(seat).Some? <==> 1 <= seat <= 50
    ensures forall seat :: 1 <= seat <= 50 ==> CategoryOf(seat).value.price == SeatPrice(seat)
  {
    var cats := SeatCategories;
    assert cats[1..] == [cats[1], cats[2]];
    assert cats[1..][1..] == [cats[2]];
    assert cats[1..][1..][1..] == [];
    forall seat ensures CategoryOf(seat).Some? <==> 1 <= seat <= 50 {
      assert FindCategory(cats[1..][1..][1..], seat) == None;
      assert FindCategory(cats[1..][1..], seat) == if 31 <= seat <= 50 then Some(cats[2]) else None;
      assert FindCategory(cats[1..], seat) == if 11 <= seat <= 50 then Some(if seat <= 30 then cats[1] else cats[2]) else None;
    }
  }

  /** The running total does not validate seat numbers: a seat outside the
      table is still charged, 300 below seat 1 and 100 above seat 50. */
  lemma PriceOutsideTable(seat: int)
    requires seat < 1 || seat > 50
    ensures CategoryOf(seat).None?
    ensures seat < 1 ==> SeatPrice(seat) == 300
    ensures seat > 50 ==> SeatPrice(seat) == 100
  {
  }

  // ---------------------------------------------------------- the seat grid

  /** The buttons of one category range: the numbers from `lo` up to `hi`;
      a range whose length would be negative gives no buttons. */
  function SeatRange(lo: int, hi: int): (r: seq<int>)
    ensures |r| == if lo <= hi then hi - lo + 1 else 0
    ensures forall x :: x in r <==> lo <= x <= hi
    ensures forall i :: 0 <= i < |r| ==> r[i] == lo + i
  {
    var n := if lo <= hi then hi - lo + 1 else 0;
    var r := seq(n, i => lo + i);
    assert forall x :: lo <= x <= hi ==> x in r by {
      forall x | lo <= x <= hi ensures x in r {
        assert r[x - lo] == x;
      }
    }
    r
  }

  /** Two adjacent ranges drawn one after the other are the joined range. */
  lemma SeatRangeSplit(lo: int, mid: int, hi: int)
    requires lo <= mid + 1 <= hi + 1
    ensures SeatRange(lo, mid) + SeatRange(mid + 1, hi) == SeatRange(lo, hi)
  {
    var a, b := SeatRange(lo, mid), SeatRange(mid + 1, hi);
    assert forall i :: 0 <= i < |a + b| ==> (a + b)[i] == lo + i by {
      forall i | 0 <= i < |a + b| ensures (a + b)[i] == lo + i {
        if i >= |a| {
          assert (a + b)[i] == b[i - |a|];
        }
      }
    }
  }

  /** The buttons of the dialog, category after category. */
  function SeatGrid(cats: seq<SeatCategory>): seq<int> {
    if cats == [] then [] else SeatRange(cats[0].lo, cats[0].hi) + SeatGrid(cats[1..])
  }

  /** The dialog shows seats 1, 2, ..., 50, each once and in order. */
  lemma GridIsOneToFifty()
    ensures SeatGrid(SeatCategories) == SeatRange(1, 50)
  {
    var cats := SeatCategories;
    assert cats[1..][1..][1..] == [];
    assert SeatGrid(cats[1..][1..]) == SeatRange(31, 50);
    SeatRangeSplit(11, 30, 50);
    SeatRangeSplit(1, 10, 50);
  }

  // ---------------------------------------------------------- booked seats

  predicate IsBookedRecord(r: SeatRecord, seat: int) {
    r.seatNumber == seat && r.status == "booked"
  }

  /** The lookup in the fetched seat records: the first record that books
      `seat`, if any. */
  function FindBooked(records: seq<SeatRecord>, seat: int): (r: Option<SeatRecord>)
    ensures r.Some? <==> exists k :: 0 <= k < |records| && IsBookedRecord(records[k], seat)
    ensures r.Some? ==> r.value in records && IsBookedRecord(r.value, seat)
  {
    if records == [] then None
    else if IsBookedRecord(records[0], seat) then Some(records[0])
    else
      assert forall k :: 1 <= k < |records| ==> records[k] == records[1..][k - 1];
      FindBooked(records[1..], seat)
  }

  /** A seat is drawn as booked, and cannot be clicked, when a fetched record
      has its number and the exact status "booked". */
  predicate IsBooked(records: seq<SeatRecord>, seat: int) {
    FindBooked(records, seat).Some?
  }

  predicate NoneBooked(seats: seq<int>, records: seq<SeatRecord>) {
    forall k :: 0 <= k < |seats| ==> !IsBooked(records, seats[k])
  }

  // ----------------------------------------------------- the selection list

  predicate NoDuplicates(seats: seq<int>) {
    forall i, j :: 0 <= i < j < |seats| ==> seats[i] != seats[j]
  }

  /** The selection with every occurrence of `seat` filtered out. */
  function RemoveSeat(seats: seq<int>, seat: int): seq<int> {
    if seats == [] then []
    else
      var last := seats[|seats| - 1];
      RemoveSeat(seats[..|seats| - 1], seat) + (if last == seat then [] else [last])
  }

  /** The filter drops every occurrence of `seat` and keeps every other seat
      as often as it occurs. */
  lemma {:induction false} RemoveSeatCounts(seats: seq<int>, seat: int)
    ensures multiset(RemoveSeat(seats, seat)) == multiset(seats)[seat := 0]
  {
    if seats != [] {
      var last := seats[|seats| - 1];
      assert seats == seats[..|seats| - 1] + [last];
      RemoveSeatCounts(seats[..|seats| - 1], seat);
    }
  }

  /** handleSeatClick: a seat already selected is removed, any other seat is
      appended at the end. */
  function ToggleSeat(selected: seq<int>, seat: int): (r: seq<int>)
    ensures seat in r <==> seat !in selected
    ensures forall y :: y != seat ==> multiset(r)[y] == multiset(selected)[y]
  {
    if seat in selected then
      var r := RemoveSeat(selected, seat);
      RemoveSeatCounts(selected, seat);
      assert seat !in multiset(r);
      r
    else selected + [seat]
  }

  /** The click handler of a grid button: a booked seat ignores the click. */
  function ClickSeat(selected: seq<int>, records: seq<SeatRecord>, seat: int): (r: seq<int>)
    ensures IsBooked(records, seat) ==> r == selected
    ensures !IsBooked(records, seat) ==> (seat in r <==> seat !in selected)
    ensures forall y :: y != seat ==> multiset(r)[y] == multiset(selected)[y]
  {
    if IsBooked(records, seat) then selected else ToggleSeat(selected, seat)
  }

  lemma {:induction false} RemoveAbsent(seats: seq<int>, seat: int)
    requires seat !in seats
    ensures RemoveSeat(seats, seat) == seats
  {
    if seats != [] {
      RemoveAbsent(seats[..|seats| - 1], seat);
      assert seats == seats[..|seats| - 1] + [seats[|seats| - 1]];
    }
  }

  lemma {:induction false} RemoveAppend(a: seq<int>, b: seq<int>, seat: int)
    ensures RemoveSeat(a + b, seat) == RemoveSeat(a, seat) + RemoveSeat(b, seat)
  {
    if b != [] {
      var b' := b[..|b| - 1];
      var ab := a + b;
      var last := b[|b| - 1];
      assert ab[..|ab| - 1] == a + b';
      assert ab[|ab| - 1] == last;
      assert RemoveSeat(ab, seat) == RemoveSeat(a + b', seat) + (if last == seat then [] else [last]);
      RemoveAppend(a, b', seat);
    } else {
      assert a + b == a;
    }
  }

  lemma RemoveOnce(before: seq<int>, seat: int, after: seq<int>)
    requires seat !in before && seat !in after
    ensures RemoveSeat(before + [seat] + after, seat) == before + after
  {
    var front := before + [seat];
    assert front[..|front| - 1] == before;
    assert RemoveSeat(front, seat) == RemoveSeat(before, seat);
    RemoveAbsent(before, seat);
    RemoveAbsent(after, seat);
    RemoveAppend(front, after, seat);
  }

  /** Clicking a selected seat takes out exactly that seat and keeps the
      others in their order. */
  lemma ToggleRemovesAt(selected: seq<int>, seat: int, i: int)
    requires NoDuplicates(selected)
    requires 0 <= i < |selected| && selected[i] == seat
    ensures ToggleSeat(selected, seat) == selected[..i] + selected[i + 1..]
  {
    var before, after := selected[..i], selected[i + 1..];
    assert selected == before + [seat] + after;
    assert seat !in before by {
      forall k | 0 <= k < |before| ensures before[k] != seat {
        assert before[k] == selected[k];
      }
    }
    assert seat !in after by {
      forall k | 0 <= k < |after| ensures after[k] != seat {
        assert after[k] == selected[i + 1 + k];
      }
    }
    RemoveOnce(before, seat, after);
  }

  /** Clicking a seat that is not selected appends it at the end. */
  lemma ToggleAppendsAbsent(selected: seq<int>, seat: int)
    requires seat !in selected
    ensures ToggleSeat(selected, seat) == selected + [seat]
    ensures |ToggleSeat(selected, seat)| == |selected| + 1
  {
  }

  /** Clicking a free seat twice restores the selection exactly. */
  lemma ToggleTwiceRestores(selected: seq<int>, seat: int)
    requires seat !in selected
    ensures ToggleSeat(ToggleSeat(selected, seat), seat) == selected
  {
    var once := selected + [seat];
    assert once[..|once| - 1] == selected;
    RemoveAbsent(selected, seat);
  }

  /** Toggling never creates a duplicate. */
  lemma ToggleKeepsNoDuplicates(selected: seq<int>, seat: int)
    requires NoDuplicates(selected)
    ensures NoDuplicates(ToggleSeat(selected, seat))
  {
    if seat in selected {
      var i :| 0 <= i < |selected| && selected[i] == seat;
      ToggleRemovesAt(selected, seat, i);
      NoDuplicatesRemoveAt(selected, i);
    } else {
      ToggleAppendsAbsent(selected, seat);
      var r := selected + [seat];
      forall a, b | 0 <= a < b < |r| ensures r[a] != r[b] {
        assert r[a] == selected[a];
      }
    }
  }

  /** Taking one seat out of a selection without duplicates leaves none. */
  lemma NoDuplicatesRemoveAt(s: seq<int>, i: int)
    requires NoDuplicates(s)
    requires 0 <= i < |s|
    ensures NoDuplicates(s[..i] + s[i + 1..])
  {
    var r := s[..i] + s[i + 1..];
    forall a, b | 0 <= a < b < |r| ensures r[a] != r[b] {
      var a' := if a < i then a else a + 1;
      var b' := if b < i then b else b + 1;
      assert r[a] == s[a'] && r[b] == s[b'];
    }
  }

  /** A selection free of booked seats stays free of them, whatever is clicked. */
  lemma ClickKeepsBookedSeatsOut(selected: seq<int>, records: seq<SeatRecord>, seat: int)
    requires NoneBooked(selected, records)
    ensures NoneBooked(ClickSeat(selected, records, seat), records)
  {
    var r := ClickSeat(selected, records, seat);
    forall k | 0 <= k < |r| ensures !IsBooked(records, r[k]) {
      var y := r[k];
      if y != seat || IsBooked(records, seat) {
        assert y in multiset(r);
        assert y in multiset(selected);
        var m :| 0 <= m < |selected| && selected[m] == y;
      }
    }
  }

  /** Two selections with the same seats, one without duplicates, the other
      without duplicates too (sorting keeps the selection duplicate-free). */
  lemma {:induction false} NoDuplicatesPermutation(a: seq<int>, b: seq<int>)
    requires multiset(a) == multiset(b)
    requires NoDuplicates(a)
    ensures NoDuplicates(b)
  {
    if a != [] {
      var x := a[|a| - 1];
      var a' := a[..|a| - 1];
      assert a == a' + [x];
      assert x !in a' by {
        forall k | 0 <= k < |a'| ensures a'[k] != x {
          assert a'[k] == a[k];
        }
      }
      assert x in multiset(b);
      var k :| 0 <= k < |b| && b[k] == x;
      var b' := b[..k] + b[k + 1..];
      RemoveAtCounts(a', x, b, k);
      NoDuplicatesPermutation(a', b');
      assert x !in multiset(b');
      NoDuplicatesWithOneMore(b, k);
    }
  }

  /** Taking the same seat out of two selections with the same seats leaves
      two selections with the same seats. */
  lemma RemoveAtCounts(a': seq<int>, x: int, b: seq<int>, k: int)
    requires 0 <= k < |b| && b[k] == x
    requires multiset(a' + [x]) == multiset(b)
    ensures multiset(a') == multiset(b[..k] + b[k + 1..])
  {
    var b' := b[..k] + b[k + 1..];
    assert b == b[..k] + [x] + b[k + 1..];
    assert multiset(b) == multiset(b[..k]) + multiset{x} + multiset(b[k + 1..]);
    assert multiset(b') == multiset(b[..k]) + multiset(b[k + 1..]);
    forall y ensures multiset(a')[y] == multiset(b')[y] {
      assert multiset(a' + [x])[y] == multiset(b)[y];
    }
  }

  /** A selection without duplicates, with one seat it does not hold put back
      at position `k`, has no duplicates. */
  lemma NoDuplicatesWithOneMore(b: seq<int>, k: int)
    requires 0 <= k < |b|
    requires NoDuplicates(b[..k] + b[k + 1..])
    requires b[k] !in b[..k] + b[k + 1..]
    ensures NoDuplicates(b)
  {
    var b' := b[..k] + b[k + 1..];
    forall i, j | 0 <= i < j < |b| ensures b[i] != b[j] {
      if i != k && j != k {
        var i' := if i < k then i else i - 1;
        var j' := if j < k then j else j - 1;
        assert b[i] == b'[i'] && b[j] == b'[j'];
      } else if i == k {
        assert b[j] == b'[j - 1];
      } else {
        assert b[i] == b'[i];
      }
    }
  }

  // --------------------------------------------------------------- payment

  /** The numeric comparator of the selection sort: smaller seats first. */
  function Ascending(a: int, b: int): int {
    a - b
  }

  lemma AscendingIsTotalPreorder()
    ensures IsTotalPreorder(Ascending)
  {
  }

  /** The pay button: an empty selection is refused; otherwise the amount is
      the total of the selection and the seats go on sorted ascending. */
  function ProceedToPayment(selectedSeats: seq<int>, showId: string): (r: Result<PaymentRequest, string>)
    ensures r.Failure? <==> selectedSeats == []
    ensures r.Failure? ==> r.error == NoSeatSelected
    ensures r.Success? ==>
      && multiset(r.value.selectedSeats) == multiset(selectedSeats)
      && (forall i, j :: 0 <= i < j < |r.value.selectedSeats| ==>
            r.value.selectedSeats[i] <= r.value.selectedSeats[j])
      && r.value.totalAmount == TotalPrice(selectedSeats)
      && r.value.totalAmount == TotalPrice(r.value.selectedSeats)
      && r.value.showId == showId
  {
    if |selectedSeats| == 0 then Failure(NoSeatSelected)
    else
      var total := TotalPrice(selectedSeats);
      var sorted := SortBy(selectedSeats, Ascending);
      AscendingIsTotalPreorder();
      SortBySorted(selectedSeats, Ascending);
      TotalPricePermutation(selectedSeats, sorted);
      Success(PaymentRequest(total, sorted, showId))
  }
}
