/** The two tables the server works on, `wallets` and `tickets`, as values.
    Identifiers are the serial ids the database hands out. */
module Tables {

  type UserId = nat
  type TicketId = nat

  datatype Option<+T> = None | Some(value: T)

  datatype Result<+R, +E> = Success(value: R) | Failure(error: E)

  /** A ticket row is either still on sale or sold; release is a separate flag. */
  datatype Status = Available | Sold

  /** One row of `wallets`: the spendable balance and the balance held in escrow. */
  datatype Wallet = Wallet(available: int, locked: int)

  /** One row of `tickets`. Amounts and times are integers (times in milliseconds
      since the epoch, durations in minutes). */
  datatype Ticket = Ticket(
    seller: UserId,
    buyer: Option<UserId>,
    fromStation: string,
    toStation: string,
    price: int,
    ticketType: string,
    imageUrl: string,
    tripStart: int,
    durationMinutes: int,
    status: Status,
    released: bool)

  /** The part of the database the escrow logic touches. */
  datatype Db = Db(wallets: map<UserId, Wallet>, tickets: map<TicketId, Ticket>)

  /** The row invariant of a ticket: a buyer is recorded exactly when the ticket
      is sold, and only a sold ticket can have its payment released. */
  predicate WellFormed(t: Ticket)
  {
    && (t.buyer.Some? <==> t.status == Sold)
    && (t.released ==> t.status == Sold)
  }

  predicate AllWellFormed(tickets: map<TicketId, Ticket>)
  {
    forall id :: id in tickets ==> WellFormed(tickets[id])
  }

  /** Both balances of every wallet are non-negative. */
  predicate BalancesNonNegative(wallets: map<UserId, Wallet>)
  {
    forall u :: u in wallets ==> wallets[u].available >= 0 && wallets[u].locked >= 0
  }

  const MsPerMinute: int := 60000

  /** The outcome of a request that returns no value on success. */
  datatype Outcome<+E> = Pass | Fail(error: E)

  /** A wallet as the database creates it at registration. */
  const EmptyWallet := Wallet(0, 0)
}
