/**
 * Seats, bookings and the booking loop run when a payment succeeds, as pure
 * functions over the seat table, with the properties that loop guarantees.
 */
module Seats {
  import opened Wrappers

  type SeatId = nat
  type TheaterId = nat
  type MovieId = nat
  type UserId = nat

  /** The payment status every booking made after a successful payment carries. */
  const PAYMENT_SUCCESS := "SUCCESS"

  /** A seat row: the theater (screening) it belongs to, its printed number and whether it is taken. */
  datatype Seat = Seat(theater: TheaterId, number: string, isBooked: bool)

  /** A booking row. */
  datatype Booking = Booking(user: UserId, seat: SeatId, movie: MovieId, theater: TheaterId, paymentStatus: string)

  /** Who is confirming, for which theater, and the movie that theater shows. */
  datatype Payer = Payer(user: UserId, theater: TheaterId, movie: MovieId)

  /** `id` names a seat of `theater` (the lookup by id and theater succeeds). */
  predicate IsSeatOf(seats: map<SeatId, Seat>, id: SeatId, theater: TheaterId) {
    id in seats && seats[id].theater == theater
  }

  function BookingFor(c: Payer, id: SeatId): Booking {
    Booking(c.user, id, c.movie, c.theater, PAYMENT_SUCCESS)
  }

  /** The state of the booking loop: the seat table, the bookings and seat numbers added so far, and the id that was not found, if any. */
  datatype Progress = Progress(seats: map<SeatId, Seat>, added: seq<Booking>, numbers: seq<string>, missing: Option<SeatId>)

  /** One iteration: look the seat up in the theater, and book it if it is free. */
  function Visit(p: Progress, c: Payer, id: SeatId): Progress {
    if !IsSeatOf(p.seats, id, c.theater) then p.(missing := Some(id))
    else if p.seats[id].isBooked then p
    else
      var s := p.seats[id];
      p.(seats := p.seats[id := s.(isBooked := true)], added := p.added + [BookingFor(c, id)], numbers := p.numbers + [s.number])
  }

  /** The booking loop over a selection, stopping at the first id that is not a seat of the theater. */
  function Confirm(seats: map<SeatId, Seat>, c: Payer, selection: seq<SeatId>): Progress
  {
    if selection == [] then Progress(seats, [], [], None)
    else
      var p := Confirm(seats, c, selection[..|selection| - 1]);
      if p.missing.Some? then p else Visit(p, c, selection[|selection| - 1])
  }

  // ----- Reference definitions -----

  /** The position of the first selected id that is not a seat of the theater. */
  function FirstMissing(seats: map<SeatId, Seat>, theater: TheaterId, selection: seq<SeatId>): (r: Option<nat>)
    ensures r.Some? ==> r.value < |selection| && !IsSeatOf(seats, selection[r.value], theater)
    ensures r.Some? ==> forall k :: 0 <= k < r.value ==> IsSeatOf(seats, selection[k], theater)
    ensures r.None? ==> forall k :: 0 <= k < |selection| ==> IsSeatOf(seats, selection[k], theater)
  {
    if selection == [] then None
    else
      var n := |selection| - 1;
      var f := FirstMissing(seats, theater, selection[..n]);
      if f.Some? then f
      else if !IsSeatOf(seats, selection[n], theater) then Some(n)
      else None
  }

  /** The part of the selection the loop gets through before it stops. */
  function Processed(seats: map<SeatId, Seat>, theater: TheaterId, selection: seq<SeatId>): (r: seq<SeatId>)
    ensures forall id :: id in r ==> IsSeatOf(seats, id, theater)
  {
    match FirstMissing(seats, theater, selection)
    case Some(j) => selection[..j]
    case None => selection
  }

  /** The selected ids that name free seats, each once, in the order of their first selection. */
  function Fresh(seats: map<SeatId, Seat>, selection: seq<SeatId>): (r: seq<SeatId>)
    ensures forall id :: id in r <==> id in selection && id in seats && !seats[id].isBooked
    ensures forall i, j :: 0 <= i < j < |r| ==> r[i] != r[j]
  {
    if selection == [] then []
    else
      var init, x := selection[..|selection| - 1], selection[|selection| - 1];
      assert selection == init + [x];
      if x in seats && !seats[x].isBooked && x !in init then Fresh(seats, init) + [x] else Fresh(seats, init)
  }

  /** The seat table with every listed seat marked booked. */
  function BookAll(seats: map<SeatId, Seat>, ids: seq<SeatId>): map<SeatId, Seat> {
    map id | id in seats :: if id in ids then seats[id].(isBooked := true) else seats[id]
  }

  function BookingsFor(c: Payer, ids: seq<SeatId>): (r: seq<Booking>)
    ensures |r| == |ids| && forall k :: 0 <= k < |ids| ==> r[k] == BookingFor(c, ids[k])
  {
    if ids == [] then [] else BookingsFor(c, ids[..|ids| - 1]) + [BookingFor(c, ids[|ids| - 1])]
  }

  function NumbersOf(seats: map<SeatId, Seat>, ids: seq<SeatId>): (r: seq<string>)
    requires forall id :: id in ids ==> id in seats
    ensures |r| == |ids| && forall k :: 0 <= k < |ids| ==> r[k] == seats[ids[k]].number
  {
    if ids == [] then [] else NumbersOf(seats, ids[..|ids| - 1]) + [seats[ids[|ids| - 1]].number]
  }

  /** The seat of every booking in a list, in order. */
  function SeatsOf(bookings: seq<Booking>): (r: seq<SeatId>)
    ensures |r| == |bookings| && forall k :: 0 <= k < |r| ==> r[k] == bookings[k].seat
  {
    if bookings == [] then [] else [bookings[0].seat] + SeatsOf(bookings[1..])
  }

  // ----- The loop, characterised -----

  lemma BookAllSnoc(seats: map<SeatId, Seat>, ids: seq<SeatId>, x: SeatId)
    requires x in seats
    ensures BookAll(seats, ids + [x]) == BookAll(seats, ids)[x := BookAll(seats, ids)[x].(isBooked := true)]
  {
  }

  lemma {:induction false} SnocUnfold(seats: map<SeatId, Seat>, c: Payer, init: seq<SeatId>, x: SeatId)
    ensures Confirm(seats, c, init + [x]) ==
      var p := Confirm(seats, c, init); if p.missing.Some? then p else Visit(p, c, x)
    ensures FirstMissing(seats, c.theater, init + [x]) ==
      var f := FirstMissing(seats, c.theater, init);
      if f.Some? then f else if !IsSeatOf(seats, x, c.theater) then Some(|init|) else None
    ensures Fresh(seats, init + [x]) ==
      if x in seats && !seats[x].isBooked && x !in init then Fresh(seats, init) + [x] else Fresh(seats, init)
    ensures BookingsFor(c, Fresh(seats, init) + [x]) == BookingsFor(c, Fresh(seats, init)) + [BookingFor(c, x)]
  {
    var sel := init + [x];
    assert sel[..|sel| - 1] == init;
    var ids := Fresh(seats, init) + [x];
    assert ids[..|ids| - 1] == Fresh(seats, init);
  }

  /**
   * What the booking loop does, in terms of the reference definitions: it
   * stops at the first id that is not a seat of the theater; every seat it got
   * through is booked and nothing else changes; and it adds one booking and one
   * seat number for each seat that was free on entry, in selection order.
   */
  predicate Characterised(seats: map<SeatId, Seat>, c: Payer, selection: seq<SeatId>) {
    var p := Confirm(seats, c, selection);
    var f := FirstMissing(seats, c.theater, selection);
    var ids := Fresh(seats, Processed(seats, c.theater, selection));
    && p.missing == (if f.Some? then Some(selection[f.value]) else None)
    && p.seats == BookAll(seats, Processed(seats, c.theater, selection))
    && p.added == BookingsFor(c, ids)
    && p.numbers == NumbersOf(seats, ids)
  }

  /** The step of `ConfirmSpec` once an earlier id was missing. */
  lemma StepAfterMissing(seats: map<SeatId, Seat>, c: Payer, init: seq<SeatId>, x: SeatId)
    requires Characterised(seats, c, init)
    requires FirstMissing(seats, c.theater, init).Some?
    ensures Characterised(seats, c, init + [x])
  {
    SnocUnfold(seats, c, init, x);
    var j := FirstMissing(seats, c.theater, init).value;
    assert (init + [x])[..j] == init[..j];
    assert (init + [x])[j] == init[j];
  }

  /** The step of `ConfirmSpec` at the id that is missing. */
  lemma StepAtMissing(seats: map<SeatId, Seat>, c: Payer, init: seq<SeatId>, x: SeatId)
    requires Characterised(seats, c, init)
    requires FirstMissing(seats, c.theater, init).None? && !IsSeatOf(seats, x, c.theater)
    ensures Characterised(seats, c, init + [x])
  {
    SnocUnfold(seats, c, init, x);
    assert (init + [x])[..|init|] == init;
    assert (init + [x])[|init|] == x;
  }

  /** The step of `ConfirmSpec` at a seat that is already booked. */
  lemma StepAtBooked(seats: map<SeatId, Seat>, c: Payer, init: seq<SeatId>, x: SeatId)
    requires Characterised(seats, c, init)
    requires FirstMissing(seats, c.theater, init).None? && IsSeatOf(seats, x, c.theater)
    requires x in init || seats[x].isBooked
    ensures Characterised(seats, c, init + [x])
  {
    SnocUnfold(seats, c, init, x);
    var sel := init + [x];
    assert Processed(seats, c.theater, init) == init;
    assert Processed(seats, c.theater, sel) == sel;
    BookAllBooked(seats, init, x);
  }

  /** Booking a seat that is already booked, or already listed, changes nothing. */
  lemma BookAllBooked(seats: map<SeatId, Seat>, ids: seq<SeatId>, x: SeatId)
    requires x in seats && (x in ids || seats[x].isBooked)
    ensures x in BookAll(seats, ids) && BookAll(seats, ids)[x].isBooked
    ensures BookAll(seats, ids + [x]) == BookAll(seats, ids)
  {
    var a, b := BookAll(seats, ids + [x]), BookAll(seats, ids);
    forall id | id in seats ensures a[id] == b[id] {
      if id == x && x !in ids {
        assert seats[x].(isBooked := true) == seats[x];
      }
    }
  }

  /** The step of `ConfirmSpec` at a free seat. */
  lemma StepAtFree(seats: map<SeatId, Seat>, c: Payer, init: seq<SeatId>, x: SeatId)
    requires Characterised(seats, c, init)
    requires FirstMissing(seats, c.theater, init).None? && IsSeatOf(seats, x, c.theater)
    requires x !in init && !seats[x].isBooked
    ensures Characterised(seats, c, init + [x])
  {
    SnocUnfold(seats, c, init, x);
    BookAllSnoc(seats, init, x);
    var ids := Fresh(seats, init);
    var ids' := ids + [x];
    assert ids'[..|ids'| - 1] == ids;
  }

  lemma {:induction false} ConfirmSpec(seats: map<SeatId, Seat>, c: Payer, selection: seq<SeatId>)
    ensures Characterised(seats, c, selection)
  {
    if selection != [] {
      var init, x := selection[..|selection| - 1], selection[|selection| - 1];
      assert selection == init + [x];
      ConfirmSpec(seats, c, init);
      if FirstMissing(seats, c.theater, init).Some? {
        StepAfterMissing(seats, c, init, x);
      } else if !IsSeatOf(seats, x, c.theater) {
        StepAtMissing(seats, c, init, x);
      } else if x in init || seats[x].isBooked {
        StepAtBooked(seats, c, init, x);
      } else {
        StepAtFree(seats, c, init, x);
      }
    }
  }

  // ----- Properties of the booking loop -----

  /**
   * Seats only ever go from free to booked: the set of seats, their theaters
   * and numbers are unchanged, a booked seat stays booked, and a seat that was
   * not selected is untouched.
   */
  lemma ConfirmOnlyBooksSelected(seats: map<SeatId, Seat>, c: Payer, selection: seq<SeatId>)
    ensures var p := Confirm(seats, c, selection);
      && p.seats.Keys == seats.Keys
      && (forall id :: id in seats ==>
            && p.seats[id].theater == seats[id].theater
            && p.seats[id].number == seats[id].number
            && (seats[id].isBooked ==> p.seats[id].isBooked))
      && (forall id :: id in seats && id !in selection ==> p.seats[id] == seats[id])
  {
    ConfirmSpec(seats, c, selection);
  }

  /**
   * The loop finishes exactly when every selected id is a seat of the theater,
   * and then every selected seat is booked.
   */
  lemma ConfirmBooksEverySelectedSeat(seats: map<SeatId, Seat>, c: Payer, selection: seq<SeatId>)
    ensures var p := Confirm(seats, c, selection);
      && (p.missing.None? <==> forall id :: id in selection ==> IsSeatOf(seats, id, c.theater))
      && (p.missing.None? ==> forall id :: id in selection ==> id in p.seats && p.seats[id].isBooked)
  {
    ConfirmSpec(seats, c, selection);
    var f := FirstMissing(seats, c.theater, selection);
    if f.Some? {
      assert selection[f.value] in selection;
    } else {
      forall id | id in selection ensures IsSeatOf(seats, id, c.theater) {
        var k :| 0 <= k < |selection| && selection[k] == id;
      }
    }
  }

  /**
   * One booking is added exactly for each seat that goes from free to booked,
   * each such seat once and in selection order, made out to the payer for the
   * theater's movie with a successful payment; the seat numbers reported are
   * those of the same seats.
   */
  lemma ConfirmBookingsMatchFlips(seats: map<SeatId, Seat>, c: Payer, selection: seq<SeatId>)
    ensures var p := Confirm(seats, c, selection);
      && SeatsOf(p.added) == Fresh(seats, Processed(seats, c.theater, selection))
      && (forall id :: id in SeatsOf(p.added) <==> id in seats && !seats[id].isBooked && id in p.seats && p.seats[id].isBooked)
      && (forall i, j :: 0 <= i < j < |p.added| ==> p.added[i].seat != p.added[j].seat)
      && (forall k :: 0 <= k < |p.added| ==>
            p.added[k] == Booking(c.user, p.added[k].seat, c.movie, c.theater, PAYMENT_SUCCESS))
      && |p.numbers| == |p.added|
      && (forall k :: 0 <= k < |p.added| ==> p.added[k].seat in seats && p.numbers[k] == seats[p.added[k].seat].number)
  {
    ConfirmSpec(seats, c, selection);
    var p := Confirm(seats, c, selection);
    var ids := Fresh(seats, Processed(seats, c.theater, selection));
    assert SeatsOf(p.added) == ids;
  }

  /** One more iteration of the loop, while no id has been missing. */
  lemma LoopStep(seats: map<SeatId, Seat>, c: Payer, selection: seq<SeatId>, i: nat)
    requires i < |selection| && Confirm(seats, c, selection[..i]).missing.None?
    ensures Confirm(seats, c, selection[..i + 1]) == Visit(Confirm(seats, c, selection[..i]), c, selection[i])
  {
    assert selection[..i + 1] == selection[..i] + [selection[i]];
    SnocUnfold(seats, c, selection[..i], selection[i]);
  }

  /** Once the loop has stopped at a missing id, the rest of the selection is never looked at. */
  lemma {:induction false} ConfirmStopsAtMissing(seats: map<SeatId, Seat>, c: Payer, selection: seq<SeatId>, k: nat)
    requires k <= |selection| && Confirm(seats, c, selection[..k]).missing.Some?
    ensures Confirm(seats, c, selection) == Confirm(seats, c, selection[..k])
    decreases |selection| - k
  {
    if k < |selection| {
      var init := selection[..|selection| - 1];
      assert init[..k] == selection[..k];
      ConfirmStopsAtMissing(seats, c, init, k);
      assert selection == init + [selection[|selection| - 1]];
      SnocUnfold(seats, c, init, selection[|selection| - 1]);
    } else {
      assert selection[..k] == selection;
    }
  }

  /**
   * No rollback: when the loop stops at a missing seat, everything done for the
   * ids before it stays done, and those seats are booked.
   */
  lemma ConfirmKeepsWorkBeforeMissing(seats: map<SeatId, Seat>, c: Payer, selection: seq<SeatId>)
    ensures var p := Confirm(seats, c, selection);
      p.missing.Some? ==>
        && FirstMissing(seats, c.theater, selection).Some?
        && var j := FirstMissing(seats, c.theater, selection).value;
        && p.missing.value == selection[j]
        && !IsSeatOf(seats, selection[j], c.theater)
        && p == Confirm(seats, c, selection[..j]).(missing := Some(selection[j]))
        && (forall i :: 0 <= i < j ==> selection[i] in p.seats && p.seats[selection[i]].isBooked)
  {
    ConfirmSpec(seats, c, selection);
    var f := FirstMissing(seats, c.theater, selection);
    if f.Some? {
      var j := f.value;
      var pre := selection[..j];
      ConfirmSpec(seats, c, pre);
      assert FirstMissing(seats, c.theater, pre).None?;
      assert Processed(seats, c.theater, selection) == pre;
      forall i | 0 <= i < j ensures selection[i] in Confirm(seats, c, selection).seats && Confirm(seats, c, selection).seats[selection[i]].isBooked {
        assert selection[i] in pre;
      }
    }
  }

  /** Each selected id is booked at most once. */
  lemma {:induction false} FreshLength(seats: map<SeatId, Seat>, selection: seq<SeatId>)
    ensures |Fresh(seats, selection)| <= |selection|
  {
    if selection != [] {
      FreshLength(seats, selection[..|selection| - 1]);
    }
  }

  lemma {:induction false} FreshOfBookedIsEmpty(seats: map<SeatId, Seat>, selection: seq<SeatId>)
    requires forall id :: id in selection ==> id in seats && seats[id].isBooked
    ensures Fresh(seats, selection) == []
  {
    if selection != [] {
      var init := selection[..|selection| - 1];
      assert forall id :: id in init ==> id in selection;
      FreshOfBookedIsEmpty(seats, init);
    }
  }

  /** When every selected seat is already booked, the loop changes nothing and reports no seats. */
  lemma ConfirmOfBookedSeatsBooksNothing(seats: map<SeatId, Seat>, c: Payer, selection: seq<SeatId>)
    requires forall id :: id in selection ==> IsSeatOf(seats, id, c.theater) && seats[id].isBooked
    ensures Confirm(seats, c, selection) == Progress(seats, [], [], None)
  {
    ConfirmSpec(seats, c, selection);
    assert Processed(seats, c.theater, selection) == selection;
    assert Fresh(seats, selection) == [];
    assert BookAll(seats, selection) == seats;
  }

  /**
   * Confirming the same selection a second time books nothing: the table stays
   * as the first run left it, no booking or seat number is added, and the run
   * stops at the same missing id, if any.
   */
  lemma ConfirmTwiceBooksNothing(seats: map<SeatId, Seat>, c: Payer, selection: seq<SeatId>)
    ensures var p1 := Confirm(seats, c, selection);
      var p2 := Confirm(p1.seats, c, selection);
      p2 == Progress(p1.seats, [], [], p1.missing)
  {
    ConfirmSpec(seats, c, selection);
    var p1 := Confirm(seats, c, selection);
    ConfirmSpec(p1.seats, c, selection);
    var f := FirstMissing(seats, c.theater, selection);
    assert forall id :: IsSeatOf(p1.seats, id, c.theater) <==> IsSeatOf(seats, id, c.theater);
    var f2 := FirstMissing(p1.seats, c.theater, selection);
    assert f2 == f by {
      if f.Some? {
        if f2.None? || f2.value < f.value { assert false; }
        if f2.value > f.value { assert false; }
      } else {
        if f2.Some? { assert false; }
      }
    }
    var done := Processed(seats, c.theater, selection);
    assert Processed(p1.seats, c.theater, selection) == done;
    FreshOfBookedIsEmpty(p1.seats, done);
    assert BookAll(p1.seats, done) == p1.seats;
  }

  // ----- The table's consistency -----

  /** A booking names a booked seat of its theater, and the movie that theater shows. */
  predicate BookingValid(theaters: map<TheaterId, MovieId>, seats: map<SeatId, Seat>, b: Booking) {
    && b.seat in seats && seats[b.seat].isBooked && seats[b.seat].theater == b.theater
    && b.theater in theaters && theaters[b.theater] == b.movie
  }

  /** Every booking is valid, and no seat has two bookings. */
  predicate Consistent(theaters: map<TheaterId, MovieId>, seats: map<SeatId, Seat>, bookings: seq<Booking>) {
    && (forall k :: 0 <= k < |bookings| ==> BookingValid(theaters, seats, bookings[k]))
    && (forall i, j :: 0 <= i < j < |bookings| ==> bookings[i].seat != bookings[j].seat)
  }

  /** The booking loop keeps the tables consistent: at most one booking per seat, and only for booked seats. */
  lemma ConfirmPreservesConsistency(theaters: map<TheaterId, MovieId>, seats: map<SeatId, Seat>,
                                    bookings: seq<Booking>, c: Payer, selection: seq<SeatId>)
    requires c.theater in theaters && theaters[c.theater] == c.movie
    requires Consistent(theaters, seats, bookings)
    ensures var p := Confirm(seats, c, selection);
      Consistent(theaters, p.seats, bookings + p.added)
  {
    var p := Confirm(seats, c, selection);
    ConfirmOnlyBooksSelected(seats, c, selection);
    ConfirmBookingsMatchFlips(seats, c, selection);
    ConfirmSpec(seats, c, selection);
    var all := bookings + p.added;
    forall k | 0 <= k < |all| ensures BookingValid(theaters, p.seats, all[k]) {
      if k >= |bookings| {
        var b := p.added[k - |bookings|];
        assert b.seat in SeatsOf(p.added);
      } else {
        assert BookingValid(theaters, seats, bookings[k]);
      }
    }
    forall i, j | 0 <= i < j < |all| ensures all[i].seat != all[j].seat {
      if j >= |bookings| {
        var b := p.added[j - |bookings|];
        assert b.seat in SeatsOf(p.added);
        if i < |bookings| {
          assert BookingValid(theaters, seats, bookings[i]);
        }
      }
    }
  }
}
