/** Ticket listing (`/api/tickets`): a seller lists `count` identical tickets in
    one request; each loop iteration inserts one row with the next serial id. */
module Listing {
  import opened Tables
  import Escrow

  datatype ListError = LocationRequired | ImageRequired

  /** The request is refused when no location is given or the image is
      missing, in that order, before anything is inserted. */
  function CheckListing(locationGiven: bool, imageUrl: string): (r: Outcome<ListError>)
    ensures r == Pass <==> locationGiven && imageUrl != ""
    ensures r == Fail(LocationRequired) <==> !locationGiven
  {
    if !locationGiven then Fail(LocationRequired)
    else if imageUrl == "" then Fail(ImageRequired)
    else Pass
  }

  /** The row one insert creates. The columns it does not set take their
      database defaults: on sale, no buyer, payment not released. */
  function NewTicket(seller: UserId, fromStation: string, toStation: string, price: int,
                     ticketType: string, imageUrl: string, tripStart: int, durationMinutes: int): (t: Ticket)
    ensures WellFormed(t)
    ensures t.status == Available && t.buyer == None && !t.released
    ensures t.seller == seller && t.price == price
    ensures t.fromStation == fromStation && t.toStation == toStation
    ensures t.ticketType == ticketType && t.imageUrl == imageUrl
    ensures t.tripStart == tripStart && t.durationMinutes == durationMinutes
  {
    Ticket(seller, None, fromStation, toStation, price, ticketType, imageUrl,
           tripStart, durationMinutes, Available, false)
  }

  /** The number of rows `for (i = 0; i < count; i++)` inserts. */
  function Inserts(count: int): (n: nat)
    ensures count > 0 ==> n == count
    ensures count <= 0 ==> n == 0
  {
    if count > 0 then count else 0
  }

  /** `n` copies of `t` under the consecutive ids `first`, ..., `first + n - 1`,
      as the loop inserts them. */
  function Batch(first: nat, n: nat, t: Ticket): map<TicketId, Ticket>
  {
    if n == 0 then map[] else Batch(first, n - 1, t)[first + n - 1 := t]
  }

  /** The batch holds exactly the ids `first` to `first + n - 1`, all mapped
      to `t`. */
  lemma {:induction false} BatchContents(first: nat, n: nat, t: Ticket)
    ensures forall id :: id in Batch(first, n, t) <==> first <= id < first + n
    ensures forall id :: id in Batch(first, n, t) ==> Batch(first, n, t)[id] == t
  {
    if n > 0 {
      BatchContents(first, n - 1, t);
    }
  }

  /** One more iteration of the listing loop adds the next row of the batch. */
  lemma ListingStep(tickets: map<TicketId, Ticket>, first: nat, i: nat, t: Ticket)
    ensures (tickets + Batch(first, i, t))[first + i := t] == tickets + Batch(first, i + 1, t)
  {
  }

  /** A listing keeps every id below the next serial value and every row well
      formed. */
  lemma ListingKeepsTableValid(tickets: map<TicketId, Ticket>, first: nat, n: nat, t: Ticket)
    requires forall id :: id in tickets ==> id < first
    requires AllWellFormed(tickets) && WellFormed(t)
    ensures forall id :: id in tickets + Batch(first, n, t) ==> id < first + n
    ensures AllWellFormed(tickets + Batch(first, n, t))
  {
    BatchContents(first, n, t);
  }

  /** A batch of `n` holds exactly `n` tickets. */
  lemma {:induction false} BatchSize(first: nat, n: nat, t: Ticket)
    ensures |Batch(first, n, t)| == n
  {
    if n > 0 {
      BatchSize(first, n - 1, t);
      BatchContents(first, n - 1, t);
    }
  }

  /** Listing a batch above every existing id adds exactly `n` tickets and
      leaves every existing ticket as it was. */
  lemma ListingAddsExactly(tickets: map<TicketId, Ticket>, first: nat, n: nat, t: Ticket)
    requires forall id :: id in tickets ==> id < first
    ensures |tickets + Batch(first, n, t)| == |tickets| + n
    ensures forall id :: id in tickets ==> (tickets + Batch(first, n, t))[id] == tickets[id]
  {
    var b := Batch(first, n, t);
    BatchSize(first, n, t);
    BatchContents(first, n, t);
    assert tickets.Keys !! b.Keys;
    assert (tickets + b).Keys == tickets.Keys + b.Keys;
  }

  /** Every ticket of a batch can be bought on its own: buying one of them
      leaves each other one on sale. */
  lemma BatchIndependentlyPurchasable(db: Db, first: nat, n: nat, t: Ticket, i: TicketId, j: TicketId, buyer: UserId)
    requires t.status == Available
    requires first <= i < first + n && first <= j < first + n && i != j
    ensures
      var listed := Db(db.wallets, db.tickets + Batch(first, n, t));
      && Escrow.Purchase(listed, i, buyer).Success?
      && Escrow.OnSale(Escrow.Purchase(listed, i, buyer).value.tickets, j)
  {
    BatchContents(first, n, t);
  }
}
