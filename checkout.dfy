/**
 * Starting a payment: the seat-selection page posts the chosen seats, and
 * checkout either sends the user back (nothing chosen) or records the
 * selection and starts a card payment for the price of the seats.
 */
module Checkout {
  import opened Seats

  /** Ticket price per seat, in rupees. */
  const SEAT_PRICE := 150
  /** The payment provider takes amounts in the smallest currency unit (paise). */
  const PAISE_PER_RUPEE := 100

  /** What checkout stores in the session for the payment-success page: the selected seat ids and the theater. */
  datatype Pending = Pending(seats: seq<SeatId>, theater: TheaterId)

  datatype CheckoutOutcome =
    | TheaterNotFound
    | BackToSeatSelection(theater: TheaterId)
    | Payment(pending: Pending, amount: nat, unitAmount: nat)

  /**
   * An unknown theater is not found; an empty selection only redirects back,
   * storing nothing and charging nothing; otherwise the selection is stored
   * and a single line item of 150 rupees per seat is charged, handed to the
   * payment provider as 15000 paise per seat.
   */
  function CreateCheckoutSession(theaters: map<TheaterId, MovieId>, theater: TheaterId, selected: seq<SeatId>): (r: CheckoutOutcome)
    ensures r.TheaterNotFound? <==> theater !in theaters
    ensures r.BackToSeatSelection? <==> theater in theaters && selected == []
    ensures r.BackToSeatSelection? ==> r.theater == theater
    ensures r.Payment? ==> r.pending == Pending(selected, theater) && r.pending.theater in theaters
    ensures r.Payment? ==> r.amount == 150 * |selected| > 0 && r.unitAmount == 15000 * |selected|
  {
    if theater !in theaters then TheaterNotFound
    else if selected == [] then BackToSeatSelection(theater)
    else
      var amount := SEAT_PRICE * |selected|;
      Payment(Pending(selected, theater), amount, amount * PAISE_PER_RUPEE)
  }

  datatype BookSeatsOutcome =
    | SeatsPageNotFound
    | SeatSelectionPage(theater: TheaterId)
    | Checkout(outcome: CheckoutOutcome)

  /**
   * The seat-booking page: a POST is handed to checkout, any other request
   * shows the seat selection; a payment starts only for a POST of a
   * non-empty selection for a known theater.
   */
  function BookSeats(theaters: map<TheaterId, MovieId>, theater: TheaterId, httpMethod: string, posted: seq<SeatId>): (r: BookSeatsOutcome)
    ensures theater !in theaters <==> r.SeatsPageNotFound?
    ensures r.SeatSelectionPage? <==> theater in theaters && httpMethod != "POST"
    ensures r.Checkout? ==> r.outcome == CreateCheckoutSession(theaters, theater, posted)
    ensures (r.Checkout? && r.outcome.Payment?) <==> theater in theaters && httpMethod == "POST" && posted != []
  {
    if theater !in theaters then SeatsPageNotFound
    else if httpMethod == "POST" then Checkout(CreateCheckoutSession(theaters, theater, posted))
    else SeatSelectionPage(theater)
  }
}
