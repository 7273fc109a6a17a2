/**
 * The payment-success page: the seat table as a mutable object, and the
 * booking loop run over the selection that checkout stored in the session.
 */
module Confirmation {
  import opened Wrappers
  import opened Seats
  import Checkout

  /** The lookups of the payment-success page that end in "not found". */
  datatype NotFound = MissingTheater | MissingSeat(seat: SeatId)

  /** The theater, seat and booking tables. */
  class SeatTable {
    /** Each theater (screening) and the movie it shows; not changed here. */
    const theaters: map<TheaterId, MovieId>
    var seats: map<SeatId, Seat>
    var bookings: seq<Booking>

    predicate Valid()
      reads this
    {
      Consistent(theaters, seats, bookings)
    }

    constructor (theaters: map<TheaterId, MovieId>, seats: map<SeatId, Seat>)
      ensures this.theaters == theaters && this.seats == seats && bookings == []
      ensures Valid()
    {
      this.theaters := theaters;
      this.seats := seats;
      bookings := [];
    }

    /**
     * Books the seats stored in the session. Without a session, or for an
     * unknown theater, nothing changes. Otherwise each selected id is looked
     * up in the theater in turn; a free seat is marked booked, its number is
     * reported and a booking is added; a booked seat is skipped; an id that is
     * not a seat of the theater ends the request as not found, keeping what
     * was booked before it.
     */
    method PaymentSuccess(user: UserId, session: Option<Checkout.Pending>) returns (r: Result<seq<string>, NotFound>)
      modifies this`seats, this`bookings
      ensures old(Valid()) ==> Valid()
      ensures session.None? || session.value.theater !in theaters ==>
        r == Err(MissingTheater) && seats == old(seats) && bookings == old(bookings)
      ensures session.Some? && session.value.theater in theaters ==>
        var p := Confirm(old(seats), Payer(user, session.value.theater, theaters[session.value.theater]), session.value.seats);
        && seats == p.seats
        && bookings == old(bookings) + p.added
        && r == (if p.missing.Some? then Err(MissingSeat(p.missing.value)) else Ok(p.numbers))
    {
      if session.None? || session.value.theater !in theaters {
        return Err(MissingTheater);
      }
      var theater := session.value.theater;
      var selected := session.value.seats;
      var payer := Payer(user, theater, theaters[theater]);
      ghost var seats0, bookings0 := seats, bookings;
      ghost var wasValid := Valid();
      ghost var added: seq<Booking> := [];
      var numbers: seq<string> := [];
      var i := 0;
      while i < |selected|
        invariant 0 <= i <= |selected|
        invariant bookings == bookings0 + added
        invariant Confirm(seats0, payer, selected[..i]) == Progress(seats, added, numbers, None)
      {
        var id := selected[i];
        LoopStep(seats0, payer, selected, i);
        if !(id in seats && seats[id].theater == theater) {
          ConfirmStopsAtMissing(seats0, payer, selected, i + 1);
          if wasValid {
            ConfirmPreservesConsistency(theaters, seats0, bookings0, payer, selected);
          }
          return Err(MissingSeat(id));
        }
        var seat := seats[id];
        if !seat.isBooked {
          seats := seats[id := seat.(isBooked := true)];
          numbers := numbers + [seat.number];
          bookings := bookings + [BookingFor(payer, id)];
          added := added + [BookingFor(payer, id)];
        }
        i := i + 1;
      }
      assert selected[..i] == selected;
      if wasValid {
        ConfirmPreservesConsistency(theaters, seats0, bookings0, payer, selected);
      }
      r := Ok(numbers);
    }
  }

  /**
   * A payment started by checkout carries a selection the payment-success page
   * can resolve: its theater exists, and if every selected id is a seat of it,
   * the page books every selected seat and reports at most one number per
   * selected id.
   */
  lemma CheckoutThenConfirm(theaters: map<TheaterId, MovieId>, seats: map<SeatId, Seat>,
                            theater: TheaterId, selected: seq<SeatId>, user: UserId)
    requires Checkout.CreateCheckoutSession(theaters, theater, selected).Payment?
    requires forall id :: id in selected ==> IsSeatOf(seats, id, theater)
    ensures var pending := Checkout.CreateCheckoutSession(theaters, theater, selected).pending;
      && pending.theater in theaters
      && var p := Confirm(seats, Payer(user, pending.theater, theaters[pending.theater]), pending.seats);
      && p.missing.None?
      && (forall id :: id in selected ==> id in p.seats && p.seats[id].isBooked)
      && |p.numbers| <= |selected|
  {
    var pending := Checkout.CreateCheckoutSession(theaters, theater, selected).pending;
    var c := Payer(user, pending.theater, theaters[pending.theater]);
    ConfirmBooksEverySelectedSeat(seats, c, selected);
    ConfirmSpec(seats, c, selected);
    FreshLength(seats, selected);
  }

  /**
   * A payment can succeed with nothing booked: when every seat paid for was
   * booked by the time the payment succeeds, the user has been charged for
   * them and the page reports no seats and adds no booking.
   */
  lemma PaidButNothingBooked(theaters: map<TheaterId, MovieId>, seats: map<SeatId, Seat>,
                             theater: TheaterId, selected: seq<SeatId>, user: UserId)
    requires Checkout.CreateCheckoutSession(theaters, theater, selected).Payment?
    requires forall id :: id in selected ==> IsSeatOf(seats, id, theater) && seats[id].isBooked
    ensures var o := Checkout.CreateCheckoutSession(theaters, theater, selected);
      && o.unitAmount > 0
      && Confirm(seats, Payer(user, theater, theaters[theater]), o.pending.seats) == Progress(seats, [], [], None)
  {
    ConfirmOfBookedSeatsBooksNothing(seats, Payer(user, theater, theaters[theater]), selected);
  }
}
