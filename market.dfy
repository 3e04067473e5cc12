/** The server's state and its request handlers, run one at a time: the user,
    wallet and ticket tables become fields that each handler updates in place. */
module Server {
  import opened Tables
  import Escrow
  import Listing
  import Accounts

  class Market {
    var users: map<UserId, Accounts.User>
    var wallets: map<UserId, Wallet>
    var tickets: map<TicketId, Ticket>
    /** The next values of the two serial id columns. */
    var nextUserId: nat
    var nextTicketId: nat

    /** Ids are below their serial counters, every user has exactly one wallet,
        and every ticket row is well formed. */
    ghost predicate Valid()
      reads this
    {
      && (forall u :: u in users ==> u < nextUserId)
      && wallets.Keys == users.Keys
      && (forall id :: id in tickets ==> id < nextTicketId)
      && AllWellFormed(tickets)
    }

    /** The two tables the escrow rules work on. */
    function State(): Db
      reads this
    {
      Db(wallets, tickets)
    }

    constructor ()
      ensures Valid()
      ensures users == map[] && wallets == map[] && tickets == map[]
    {
      users, wallets, tickets := map[], map[], map[];
      nextUserId, nextTicketId := 0, 0;
    }

    /** `/api/register`: validate, insert the user, then insert its wallet.
        The new user's id stands for the session token. */
    method Register(fullName: string, nationalId: string, password: string, mobile: string,
                    address: string, termsAccepted: bool)
      returns (r: Result<UserId, Accounts.RegisterError>)
      requires Valid()
      modifies this
      ensures Valid()
      ensures tickets == old(tickets) && nextTicketId == old(nextTicketId)
      // a request that breaks a validation rule is refused before any insert
      ensures Accounts.ValidationError(nationalId, password, termsAccepted).Some? ==>
        && r == Failure(Accounts.ValidationError(nationalId, password, termsAccepted).value)
        && users == old(users) && wallets == old(wallets)
      // a duplicate national id makes the user insert fail
      ensures Accounts.ValidationError(nationalId, password, termsAccepted).None? && Accounts.NationalIdTaken(old(users), nationalId) ==>
        && r == Failure(Accounts.UserExists)
        && users == old(users) && wallets == old(wallets)
      // otherwise exactly one user and exactly one empty wallet are created
      ensures Accounts.ValidationError(nationalId, password, termsAccepted).None? && !Accounts.NationalIdTaken(old(users), nationalId) ==>
        && r.Success?
        && r.value !in old(users) && r.value !in old(wallets)
        && users == old(users)[r.value := Accounts.User(fullName, nationalId, mobile, address, termsAccepted)]
        && wallets == old(wallets)[r.value := EmptyWallet]
    {
      var invalid := Accounts.ValidationError(nationalId, password, termsAccepted);
      if invalid.Some? {
        return Failure(invalid.value);
      }
      if exists u :: u in users && users[u].nationalId == nationalId {
        return Failure(Accounts.UserExists);
      }
      var id := nextUserId;
      users := users[id := Accounts.User(fullName, nationalId, mobile, address, termsAccepted)];
      nextUserId := nextUserId + 1;
      wallets := wallets[id := EmptyWallet];
      r := Success(id);
    }

    /** `/api/tickets`: after the location and image checks, insert `count`
        identical rows, one per loop iteration. */
    method ListTickets(seller: UserId, fromStation: string, toStation: string, price: int,
                       ticketType: string, imageUrl: string, count: int, tripStart: int,
                       durationMinutes: int, locationGiven: bool)
      returns (r: Outcome<Listing.ListError>)
      requires Valid()
      modifies this
      ensures Valid()
      ensures users == old(users) && wallets == old(wallets) && nextUserId == old(nextUserId)
      ensures r == Listing.CheckListing(locationGiven, imageUrl)
      ensures r.Fail? ==> tickets == old(tickets) && nextTicketId == old(nextTicketId)
      ensures r.Pass? ==>
        && nextTicketId == old(nextTicketId) + Listing.Inserts(count)
        && tickets == old(tickets) + Listing.Batch(old(nextTicketId), Listing.Inserts(count),
             Listing.NewTicket(seller, fromStation, toStation, price, ticketType, imageUrl, tripStart, durationMinutes))
    {
      r := Listing.CheckListing(locationGiven, imageUrl);
      if r.Fail? {
        return;
      }
      var t := Listing.NewTicket(seller, fromStation, toStation, price, ticketType, imageUrl, tripStart, durationMinutes);
      var i := 0;
      while i < count
        invariant 0 <= i <= Listing.Inserts(count)
        invariant nextTicketId == old(nextTicketId) + i
        invariant tickets == old(tickets) + Listing.Batch(old(nextTicketId), i, t)
        invariant users == old(users) && wallets == old(wallets) && nextUserId == old(nextUserId)
      {
        Listing.ListingStep(old(tickets), old(nextTicketId), i, t);
        tickets := tickets[nextTicketId := t];
        nextTicketId := nextTicketId + 1;
        i := i + 1;
      }
      Listing.ListingKeepsTableValid(old(tickets), old(nextTicketId), i, t);
    }

    /** `/api/buy/:id`: buy ticket `id` for the caller. */
    method Buy(id: TicketId, caller: UserId) returns (r: Outcome<Escrow.PurchaseError>)
      requires Valid()
      modifies this
      ensures Valid()
      ensures users == old(users) && nextUserId == old(nextUserId) && nextTicketId == old(nextTicketId)
      ensures r.Fail? <==> !Escrow.OnSale(old(tickets), id)
      ensures r.Fail? ==> State() == old(State())
      ensures r.Pass? ==> Escrow.Purchase(old(State()), id, caller) == Success(State())
    {
      if !(id in tickets && tickets[id].status == Available) {
        return Fail(Escrow.TicketUnavailable);
      }
      var t := tickets[id];
      var fee := Escrow.PlatformFee;
      if t.seller in wallets {
        wallets := wallets[t.seller := wallets[t.seller].(locked := wallets[t.seller].locked + (t.price - fee))];
      }
      tickets := tickets[id := tickets[id].(status := Sold, buyer := Some(caller))];
      r := Pass;
    }

    /** The body of the sweep's loop for the selected `row` with id `id`: the
        halfway check, then the two updates. */
    method ReleaseRow(id: TicketId, row: Ticket, now: int)
      modifies this
      ensures State() == Escrow.VisitRow(old(State()), id, row, now)
      ensures users == old(users) && nextUserId == old(nextUserId) && nextTicketId == old(nextTicketId)
    {
      var half := row.tripStart + (row.durationMinutes * MsPerMinute) / 2;
      if now >= half {
        if row.seller in wallets {
          wallets := wallets[row.seller := Wallet(wallets[row.seller].available + wallets[row.seller].locked, 0)];
        }
        if id in tickets {
          tickets := tickets[id := tickets[id].(released := true)];
        }
      }
    }

    /** One tick of the release timer at time `now`. The rows the query selects
        are visited one by one in an order the query leaves open; each row past
        its halfway point releases its seller's whole locked balance and is
        flagged. Whatever the order, the result is `Escrow.Sweep`. */
    method ReleaseSweep(now: int)
      requires Valid()
      modifies this
      ensures Valid()
      ensures users == old(users) && nextUserId == old(nextUserId) && nextTicketId == old(nextTicketId)
      ensures State() == Escrow.Sweep(old(State()), now)
    {
      var rows := tickets;
      var todo := set id | id in rows && Escrow.Pending(rows[id]);
      ghost var selected := todo;
      ghost var start := State();
      ghost var done: set<TicketId> := {};
      Escrow.SweepRowsNone(start, now);
      while todo != {}
        invariant todo <= selected && done == selected - todo
        invariant State() == Escrow.SweepRows(start, done, now)
        invariant users == old(users) && nextUserId == old(nextUserId) && nextTicketId == old(nextTicketId)
        decreases todo
      {
        var id :| id in todo;
        var t := rows[id];
        Escrow.SweepRowsStep(start, done, id, now);
        ReleaseRow(id, t, now);
        todo := todo - {id};
        done := done + {id};
      }
      assert done == selected;
      Escrow.SweepRowsSelected(start, selected, now);
      Escrow.SweepPreservesWellFormed(start, now);
    }
  }
}
