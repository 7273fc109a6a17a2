# BookMyShow movie views, modelled in Dafny

This project models the request logic of the `movies` app of a small Django
movie-ticket site. The logic lives in `movies/views.py`:

- **Movie list** (`movie_list`): all movies, narrowed by the optional `search`,
  `genre` and `language` query parameters (module `Catalog`).
- **Trailer embedding** (`theater_list`): a stored YouTube watch or short link is
  turned into the URL of YouTube's embeddable player (module `Trailer`). It is
  built on a model of the Python string built-ins it uses: `in`, `split`, `strip`
  and case-insensitive containment (module `Text`).
- **Seat booking** (`book_seats`, `create_checkout_session`): a POST of the chosen
  seats either sends the user back to seat selection (nothing chosen) or stores
  the selection and starts a card payment of 150 rupees per seat (module
  `Checkout`).
- **Payment success** (`payment_success`): the stored selection is walked in
  order. Each id is looked up within the theater. A free seat is marked booked,
  its number is reported and a booking row is added. A booked seat is skipped.
  An id that is not a seat of the theater ends the request as "not found" and
  keeps everything done before it.
  - Module `Seats` holds the entities and a pure specification of this loop
    (`Confirm`), with its properties.
  - Module `Confirmation` holds the seat table as a class (`SeatTable`), whose
    method `PaymentSuccess` runs the loop in place. The method is proved equal to
    `Confirm` and proved to keep the tables consistent.

The code has no seat holds, hold timeouts, expiry sweep or all-or-nothing
batch. The only seat state is the `is_booked` flag, and a failed lookup does
not undo earlier seats. The model follows the code.

## Model

| member | source | states |
|---|---|---|
| Text.Find | movies/views.py:34-37 | Python's `pat in s` search: a found index is an occurrence of the pattern |
| Text.FindFirst | movies/views.py:34-37 | the index found is the first occurrence, and nothing is found only when the pattern occurs nowhere |
| Text.ContainsIff | movies/views.py:34-36 | `pat in s` holds exactly when the pattern occurs at some position |
| Text.Contains | movies/views.py:34-36 | Python's `pat in s`; no contract of its own, characterised by `Text.ContainsIff` |
| Text.ContainsChar | movies/views.py:42 | for a one-character pattern, containment is membership of that character |
| Text.Split | movies/views.py:35-37 | `str.split(sep)` always yields at least one piece |
| Text.JoinSplit | movies/views.py:35-37 | joining the pieces of a split with the separator gives back the original string |
| Text.SplitPiecesFree | movies/views.py:35-37 | no piece of a split contains the separator |
| Text.SplitLast | movies/views.py:35-37 | the last piece (`[-1]`) is the whole string when the separator is absent; otherwise it is a suffix directly preceded by the separator, and it is separator-free |
| Text.SplitLastAfterLastOccurrence | movies/views.py:35-37 | for a separator whose occurrences cannot overlap, the last piece is exactly the text after the last occurrence |
| Text.SplitFirstAtChar | movies/views.py:42 | the first piece (`[0]`) of a split at one character is the longest prefix without that character |
| Text.StripLeft | movies/views.py:33 | removes exactly the leading Python whitespace |
| Text.StripRight | movies/views.py:33 | removes exactly the trailing Python whitespace |
| Text.Strip | movies/views.py:33 | `str.strip()` is an infix of the input, surrounded only by whitespace, that neither starts nor ends with whitespace |
| Text.StripUnchanged | movies/views.py:33 | a string with no whitespace at either end is its own strip |
| Text.Lower | movies/views.py:18 | ASCII lower-casing keeps the length, leaves no capital letter, turns each capital into its small letter and keeps every other character |
| Text.ContainsIgnoreCaseIff | movies/views.py:18 | the `icontains` test holds exactly when the pattern occurs at some position with each character equal up to the case of an ASCII letter |
| Text.ContainsIgnoreCase | movies/views.py:18 | the `name__icontains` test as ASCII lower-cased containment; no contract of its own, characterised by `Text.ContainsIgnoreCaseIff` |
| Trailer.Marker | movies/views.py:34-39 | the short-link marker takes priority over the watch marker; there is no marker exactly when the URL contains neither |
| Trailer.MarkersDoNotOverlap | movies/views.py:34-37 | neither marker can overlap itself |
| Trailer.RawVideoId | movies/views.py:34-39 | `url.split(marker)[-1]` for the chosen marker, or none without a marker; no contract of its own, characterised by `Trailer.RawVideoIdAfterLastMarker` |
| Trailer.CutQuery | movies/views.py:42 | `video_id.split("&")[0].split("?")[0]`; no contract of its own, characterised by `Trailer.CutQueryIsCleanPrefix` |
| Trailer.EmbedFromUrl | movies/views.py:34-43 | the embed URL for an already stripped trailer URL; no contract of its own, characterised by `Trailer.EmbedFromUrlSpec` |
| Trailer.EmbedUrl | movies/views.py:32-43 | the `embed_url` of the theater list page; its argument is the movie's `trailer_url` (`Catalog.Movie.trailerUrl`); no contract of its own, characterised by `Trailer.EmbedUrlSpec` |
| Trailer.LastPieceAfterLastOccurrence | movies/views.py:35-37 | the last piece of a split at a marker follows its last occurrence, and it is empty exactly when the URL ends with the marker |
| Trailer.RawVideoIdAfterLastMarker | movies/views.py:34-37 | the raw video id is the text after the last occurrence of the chosen marker, and it is empty exactly when the URL ends with that marker |
| Trailer.EmptyAfterLastOccurrence | movies/views.py:35-41 | the text after a last occurrence is empty exactly when the string ends with the pattern |
| Trailer.CutQueryIsCleanPrefix | movies/views.py:42 | the id cut at `&` and then `?` is the longest prefix of the raw id holding neither character |
| Trailer.EmbedFromUrlSpec | movies/views.py:34-43 | for a stripped URL: there is an embed URL exactly when a marker is present and the URL does not end with it; it is the embed prefix followed by the clean prefix of the text after the last marker |
| Trailer.EmbedUrlSpec | movies/views.py:32-43 | as above for a stored trailer URL: nothing for an absent or empty one, else the rule applies to its stripped form |
| Trailer.EmbedIdHasNoQuery | movies/views.py:41-43 | the id inside an embed URL never contains `&` or `?` |
| Trailer.EmptyIdStillEmbedded | movies/views.py:41-43 | as written, `youtu.be/?t=5` yields the embed prefix with an empty id |
| Trailer.EmbedUrlCheckedNamesVideo | movies/views.py:41-43 | with the emptiness test after the cut, an embed URL always names a non-empty clean id, exists exactly when the view's URL has a non-empty id, and then equals it |
| Catalog.Filter | movies/views.py:17-22 | one ORM filter keeps exactly the movies meeting the criterion, never more than it was given |
| Catalog.Satisfies | movies/views.py:17-22 | the three lookups: `name__icontains`, `genre=` and `language=`; no contract of its own, used by `Catalog.Filter` |
| Catalog.MovieList | movies/views.py:13-22 | the view's filter chain, one filter per truthy parameter; no contract of its own, characterised by `Catalog.MovieListSelects` |
| Catalog.MovieListSelects | movies/views.py:13-22 | the filter chain keeps exactly the movies matching every non-empty parameter, in their original order; without parameters it keeps all movies |
| Checkout.CreateCheckoutSession | movies/views.py:54-76 | unknown theater: not found. Empty selection: back to seat selection, nothing stored or charged. Otherwise the selection and theater are stored, the amount is 150 per seat, and the unit amount is 15000 paise per seat |
| Checkout.BookSeats | movies/views.py:147-152 | unknown theater: not found. A POST goes to checkout; any other method shows seat selection. A payment starts exactly for a POST of a non-empty selection |
| Seats.FirstMissing | movies/views.py:100-101 | the position of the first selected id that is not a seat of the theater: every id before it is one |
| Seats.Fresh | movies/views.py:103-107 | the selected ids naming seats free on entry, each exactly once |
| Seats.BookingsFor | movies/views.py:109-115 | one booking per listed seat, in order |
| Seats.NumbersOf | movies/views.py:107 | one seat number per listed seat, in order |
| Seats.SeatsOf | movies/views.py:111 | the seat of each booking, in order |
| Seats.Visit | movies/views.py:101-115 | one iteration of the booking loop: not found, skip a booked seat, or book a free one and record its number and booking; no contract of its own, characterised through `Seats.ConfirmSpec` |
| Seats.Confirm | movies/views.py:98-115 | the booking loop over the selection, stopping at the first id that is not found; no contract of its own, characterised by `Seats.ConfirmSpec` and the lemmas below |
| Seats.ConfirmSpec | movies/views.py:98-115 | the loop stops at the first missing id; every seat before it is booked and nothing else changes; one booking and one number are added per seat free on entry, in selection order |
| Seats.ConfirmOnlyBooksSelected | movies/views.py:100-105 | the set of seats, their theaters and numbers are unchanged; a booked seat stays booked; unselected seats are untouched |
| Seats.ConfirmBooksEverySelectedSeat | movies/views.py:100-105 | the loop finishes exactly when every selected id is a seat of the theater, and then every selected seat is booked |
| Seats.ConfirmBookingsMatchFlips | movies/views.py:98-115 | bookings are added exactly for the seats that go from free to booked, once each, in selection order. Each is made out to the user, the theater and its movie, with status SUCCESS. The reported numbers are those seats' numbers |
| Seats.LoopStep | movies/views.py:100-115 | one more iteration extends the specification by one visit |
| Seats.ConfirmStopsAtMissing | movies/views.py:101 | once an id is not found, the rest of the selection is never looked at |
| Seats.ConfirmKeepsWorkBeforeMissing | movies/views.py:100-105 | no rollback: on a missing id, everything done for the ids before it stays done and those seats are booked |
| Seats.FreshLength | movies/views.py:103-107 | at most one reported number per selected id |
| Seats.FreshOfBookedIsEmpty | movies/views.py:103 | no selected seat is free when all are booked |
| Seats.ConfirmOfBookedSeatsBooksNothing | movies/views.py:103 | when every selected seat is already booked, nothing changes and nothing is reported |
| Seats.ConfirmTwiceBooksNothing | movies/views.py:100-115 | a second run on the same selection changes nothing, adds nothing and stops at the same missing id |
| Seats.ConfirmPreservesConsistency | movies/views.py:103-115 | the loop keeps the tables consistent: each booking names a booked seat of its theater and that theater's movie, and no seat has two bookings |
| Confirmation.SeatTable.PaymentSuccess | movies/views.py:91-115 | without a session or for an unknown theater: not found and nothing changes. Otherwise the new seat table and booking list are those of `Confirm`, and the result is the not-found id or the booked seat numbers; consistency is kept |
| Confirmation.CheckoutThenConfirm | movies/views.py:56-107 | a selection stored by checkout names an existing theater; if all its ids are seats there, payment success books all of them and reports at most one number per id |
| Confirmation.PaidButNothingBooked | movies/views.py:58-107 | a charge is made, yet payment success books and reports nothing when every paid seat was already booked |

## Left out

- Stripe session creation and the redirect to its URL: calls into an external library. Only the amount and the unit amount handed to it are modelled.
- The confirmation e-mail and `send_mail`: I/O. The e-mail is sent after the database writes, so a mail failure does not undo the bookings.
- Template rendering, redirects and `login_required`. The request user is a parameter.
- Session storage: the selection checkout stores is passed to `PaymentSuccess` as an optional value. A missing session means a missing theater id, so the theater is not found.
- `theater_list`'s movie lookup and theater listing, and the seat listings of `payment_success` and `book_seats`: plain ORM queries that are only rendered.
- Seat ids are natural numbers. The session holds them as strings, and a non-numeric one makes the ORM raise an error that is not modelled.
- Concurrency and atomicity: the read-then-save of a seat has no lock or transaction. The model describes one request at a time.
- Text.ContainsIgnoreCase: `icontains` folds only ASCII letters here. The database collation and Unicode case folding are not modelled.
- The order of the ORM query sets is taken as the order of the input sequences.
- The booking timestamp (`booked_at`) and the database-assigned booking id.
- `movies/admin.py`: admin registration only. Edits made through the admin are not modelled, and `Valid` holds only while bookings are made through `PaymentSuccess`.

## Findings

| source | as written | input that shows it | evidently intended | confidence | as-written member | corrected member |
|---|---|---|---|---|---|---|
| movies/views.py:41-43 | the emptiness test on the video id comes before the id is cut at `&` and `?` | trailer URL `youtu.be/?t=5` gives `https://www.youtube.com/embed/` with an empty id | no embed URL when the cut id is empty | medium, not executed | Trailer.EmptyIdStillEmbedded | Trailer.EmbedUrlCheckedNamesVideo |

Because of this, the view's rule is "no embed URL when the text after the
marker is empty". An id that is empty only after the cut still gives an URL;
`Trailer.EmbedUrlSpec` states the rule as written.
