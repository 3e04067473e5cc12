/** The escrow rules of the marketplace as functions on the two tables: the
    purchase transition of `/api/buy/:id` and one tick of the periodic release
    sweep. The class `Server.Market` runs these steps in place and is proved
    against the functions here. */
module Escrow {
  import opened Tables

  /** The flat amount the platform keeps from every sale. */
  const PlatformFee: int := 10

  datatype PurchaseError = TicketUnavailable

  /** The row the availability query of a purchase finds. */
  predicate OnSale(tickets: map<TicketId, Ticket>, id: TicketId)
  {
    id in tickets && tickets[id].status == Available
  }

  /** The seller's wallet after `amount` is added to its locked balance; a seller
      without a wallet row is not updated at all. */
  function CreditLocked(wallets: map<UserId, Wallet>, seller: UserId, amount: int): (r: map<UserId, Wallet>)
    ensures r.Keys == wallets.Keys
    ensures seller in wallets ==> r[seller] == Wallet(wallets[seller].available, wallets[seller].locked + amount)
    ensures forall u :: u in wallets && u != seller ==> r[u] == wallets[u]
  {
    if seller in wallets then
      wallets[seller := wallets[seller].(locked := wallets[seller].locked + amount)]
    else
      wallets
  }

  /** A purchase of ticket `id` by user `caller`. */
  function Purchase(db: Db, id: TicketId, caller: UserId): (r: Result<Db, PurchaseError>)
    ensures r.Failure? <==> !OnSale(db.tickets, id)
    ensures r.Success? ==>
      var t := db.tickets[id];
      && r.value.wallets.Keys == db.wallets.Keys
      && r.value.tickets.Keys == db.tickets.Keys
      && (t.seller in db.wallets ==>
            && r.value.wallets[t.seller].locked == db.wallets[t.seller].locked + t.price - PlatformFee
            && r.value.wallets[t.seller].available == db.wallets[t.seller].available)
      && (forall u :: u in db.wallets && u != t.seller ==> r.value.wallets[u] == db.wallets[u])
      && r.value.tickets[id].status == Sold
      && r.value.tickets[id].buyer == Some(caller)
      && r.value.tickets[id].(status := Available, buyer := t.buyer) == t
      && (forall other :: other in db.tickets && other != id ==> r.value.tickets[other] == db.tickets[other])
  {
    if !OnSale(db.tickets, id) then
      Failure(TicketUnavailable)
    else
      var t := db.tickets[id];
      Success(Db(CreditLocked(db.wallets, t.seller, t.price - PlatformFee),
                 db.tickets[id := t.(status := Sold, buyer := Some(caller))]))
  }

  /** Once a purchase has gone through, the same ticket cannot be bought again,
      by anyone. */
  lemma PurchaseTwiceFails(db: Db, id: TicketId, first: UserId, second: UserId)
    requires Purchase(db, id, first).Success?
    ensures Purchase(Purchase(db, id, first).value, id, second).Failure?
  {
  }

  /** A ticket priced 100 credits exactly 90 to its seller's locked balance
      and leaves the buyer's wallet as it was. */
  lemma PurchaseOfHundred(seller: UserId, buyer: UserId, w: Wallet, b: Wallet)
    requires seller != buyer
    ensures
      var t := Ticket(seller, None, "A", "B", 100, "first", "img", 0, 60, Available, false);
      var db := Db(map[seller := w, buyer := b], map[7 := t]);
      var r := Purchase(db, 7, buyer);
      && r.Success?
      && r.value.wallets[seller] == Wallet(w.available, w.locked + 90)
      && r.value.wallets[buyer] == b
  {
  }

  lemma PurchasePreservesWellFormed(db: Db, id: TicketId, caller: UserId)
    requires AllWellFormed(db.tickets)
    requires Purchase(db, id, caller).Success?
    ensures AllWellFormed(Purchase(db, id, caller).value.tickets)
  {
  }

  /** Balances stay non-negative under a purchase whose price covers the fee. */
  lemma PurchaseKeepsBalancesNonNegative(db: Db, id: TicketId, caller: UserId)
    requires BalancesNonNegative(db.wallets)
    requires id in db.tickets ==> db.tickets[id].price >= PlatformFee
    requires Purchase(db, id, caller).Success?
    ensures BalancesNonNegative(Purchase(db, id, caller).value.wallets)
  {
  }

  /** Nothing checks the price against the fee: a ticket listed for 5 drives
      its seller's locked balance to -5. */
  lemma PurchaseBelowFeeLocksNegative(seller: UserId, buyer: UserId)
    ensures
      var t := Ticket(seller, None, "A", "B", 5, "first", "img", 0, 60, Available, false);
      var db := Db(map[seller := Wallet(0, 0)], map[1 := t]);
      var r := Purchase(db, 1, buyer);
      && BalancesNonNegative(db.wallets)
      && r.Success?
      && r.value.wallets[seller].locked == -5
      && !BalancesNonNegative(r.value.wallets)
  {
  }

  // ---------------------------------------------------------------------
  // The release sweep
  // ---------------------------------------------------------------------

  /** The instant at which half of the scheduled trip has passed. */
  function ReleaseAt(t: Ticket): int
  {
    t.tripStart + (t.durationMinutes * MsPerMinute) / 2
  }

  /** The halving is exact: a whole number of minutes is an even number of
      milliseconds, so no fraction is lost to integer division. */
  lemma ReleaseAtIsHalfway(t: Ticket)
    ensures 2 * (ReleaseAt(t) - t.tripStart) == t.durationMinutes * MsPerMinute
  {
  }

  /** The rows the sweep's query selects. */
  predicate Pending(t: Ticket)
  {
    t.status == Sold && !t.released
  }

  predicate Eligible(t: Ticket, now: int)
  {
    now >= ReleaseAt(t)
  }

  /** A selected row that passes the time check. */
  predicate Due(t: Ticket, now: int)
  {
    Pending(t) && Eligible(t, now)
  }

  /** The wallet update of a release: the whole locked balance moves to the
      available balance. */
  function Fold(w: Wallet): (r: Wallet)
    ensures r.available + r.locked == w.available + w.locked
    ensures r.locked == 0
  {
    Wallet(w.available + w.locked, 0)
  }

  /** The sellers of the due tickets among `ids`. */
  function ReleasedSellers(tickets: map<TicketId, Ticket>, ids: set<TicketId>, now: int): set<UserId>
  {
    set id | id in ids && id in tickets && Due(tickets[id], now) :: tickets[id].seller
  }

  /** The state after the sweep has visited the selected rows among `ids`. */
  function SweepRows(db: Db, ids: set<TicketId>, now: int): Db
  {
    var sellers := ReleasedSellers(db.tickets, ids, now);
    Db(map u | u in db.wallets :: if u in sellers then Fold(db.wallets[u]) else db.wallets[u],
       map id | id in db.tickets :: if id in ids && Due(db.tickets[id], now) then db.tickets[id].(released := true) else db.tickets[id])
  }

  /** One iteration of the sweep's loop over the selected `row` with id `id`:
      if it is past its halfway point, release the seller's wallet (no row is
      updated when the seller has none) and flag the ticket. */
  function VisitRow(cur: Db, id: TicketId, row: Ticket, now: int): Db
  {
    if Eligible(row, now) then
      Db(if row.seller in cur.wallets then cur.wallets[row.seller := Fold(cur.wallets[row.seller])] else cur.wallets,
         if id in cur.tickets then cur.tickets[id := cur.tickets[id].(released := true)] else cur.tickets)
    else
      cur
  }

  /** Visiting one more selected row, in any order, extends the partial sweep by
      that row. */
  lemma SweepRowsStep(db: Db, ids: set<TicketId>, id: TicketId, now: int)
    requires id in db.tickets && id !in ids && Pending(db.tickets[id])
    ensures SweepRows(db, ids + {id}, now) == VisitRow(SweepRows(db, ids, now), id, db.tickets[id], now)
  {
    var row := db.tickets[id];
    var cur := SweepRows(db, ids, now);
    var next := SweepRows(db, ids + {id}, now);
    var s := ReleasedSellers(db.tickets, ids, now);
    assert ReleasedSellers(db.tickets, ids + {id}, now) == if Due(row, now) then s + {row.seller} else s;
    var v := VisitRow(cur, id, row, now);
    forall u | u in db.wallets ensures next.wallets[u] == v.wallets[u] {
      FoldIdempotent(db.wallets[u]);
    }
    assert next.wallets == v.wallets;
    assert next.tickets == v.tickets;
  }

  lemma SweepRowsNone(db: Db, now: int)
    ensures SweepRows(db, {}, now) == db
  {
    assert SweepRows(db, {}, now).wallets == db.wallets;
    assert SweepRows(db, {}, now).tickets == db.tickets;
  }

  /** Only the selected rows can be due, so visiting all of them is the
      whole sweep. */
  lemma SweepRowsSelected(db: Db, selected: set<TicketId>, now: int)
    requires forall id :: id in db.tickets && Pending(db.tickets[id]) ==> id in selected
    ensures SweepRows(db, selected, now) == Sweep(db, now)
  {
    assert ReleasedSellers(db.tickets, selected, now) == ReleasedSellers(db.tickets, db.tickets.Keys, now);
  }

  /** One tick of the sweep at time `now`. Every due ticket is flagged as
      released, and every seller of a due ticket has the whole locked balance
      released, including funds locked for other tickets that are not due. */
  function Sweep(db: Db, now: int): (r: Db)
    ensures r.wallets.Keys == db.wallets.Keys
    ensures r.tickets.Keys == db.tickets.Keys
    // balance conservation, per wallet
    ensures forall u :: u in db.wallets ==>
      r.wallets[u].available + r.wallets[u].locked == db.wallets[u].available + db.wallets[u].locked
    ensures forall u :: u in db.wallets ==>
      if exists id :: id in db.tickets && Due(db.tickets[id], now) && db.tickets[id].seller == u
      then r.wallets[u].locked == 0
      else r.wallets[u] == db.wallets[u]
    // only selected rows that are past their halfway point are flagged, and
    // nothing else in a ticket changes
    ensures forall id :: id in db.tickets ==>
      && (r.tickets[id].released <==> db.tickets[id].released || Due(db.tickets[id], now))
      && r.tickets[id].(released := db.tickets[id].released) == db.tickets[id]
  {
    SweepRows(db, db.tickets.Keys, now)
  }

  /** The timing boundary for a 60-minute trip: 29 minutes after departure the
      ticket is not yet eligible, at 30 and at 31 minutes it is. */
  lemma SixtyMinuteBoundary(t: Ticket)
    requires t.durationMinutes == 60
    ensures !Eligible(t, t.tripStart + 29 * MsPerMinute)
    ensures Eligible(t, t.tripStart + 30 * MsPerMinute)
    ensures Eligible(t, t.tripStart + 31 * MsPerMinute)
  {
  }

  /** A ticket is eligible exactly when at least half of its trip has elapsed. */
  lemma EligibleIffHalfElapsed(t: Ticket, now: int)
    ensures Eligible(t, now) <==> 2 * (now - t.tripStart) >= t.durationMinutes * MsPerMinute
  {
    ReleaseAtIsHalfway(t);
  }

  lemma SweepPreservesWellFormed(db: Db, now: int)
    requires AllWellFormed(db.tickets)
    ensures AllWellFormed(Sweep(db, now).tickets)
  {
  }

  lemma SweepKeepsBalancesNonNegative(db: Db, now: int)
    requires BalancesNonNegative(db.wallets)
    ensures BalancesNonNegative(Sweep(db, now).wallets)
  {
  }

  lemma FoldIdempotent(w: Wallet)
    ensures Fold(Fold(w)) == Fold(w)
  {
  }

  /** The sellers a tick at `late` releases after a tick at `early` has run,
      together with those the early tick released, are the sellers a single
      tick at `late` releases. */
  lemma CatchUpSellers(db: Db, early: int, late: int)
    requires early <= late
    ensures
      var db1 := Sweep(db, early);
      ReleasedSellers(db.tickets, db.tickets.Keys, early) + ReleasedSellers(db1.tickets, db1.tickets.Keys, late)
        == ReleasedSellers(db.tickets, db.tickets.Keys, late)
  {
    var db1 := Sweep(db, early);
    var s1 := ReleasedSellers(db.tickets, db.tickets.Keys, early);
    var s2 := ReleasedSellers(db1.tickets, db1.tickets.Keys, late);
    var s := ReleasedSellers(db.tickets, db.tickets.Keys, late);
    forall u | u in s ensures u in s1 + s2 {
      var id :| id in db.tickets && Due(db.tickets[id], late) && db.tickets[id].seller == u;
      if Due(db.tickets[id], early) {
        assert u in s1;
      } else {
        assert db1.tickets[id] == db.tickets[id];
        assert u in s2;
      }
    }
    forall u | u in s2 ensures u in s {
      var id :| id in db1.tickets && Due(db1.tickets[id], late) && db1.tickets[id].seller == u;
      assert db1.tickets[id] == db.tickets[id];
    }
  }

  lemma CatchUpWallets(db: Db, early: int, late: int)
    requires early <= late
    ensures Sweep(Sweep(db, early), late).wallets == Sweep(db, late).wallets
  {
    CatchUpSellers(db, early, late);
    var s1 := ReleasedSellers(db.tickets, db.tickets.Keys, early);
    var db1 := Sweep(db, early);
    var s2 := ReleasedSellers(db1.tickets, db1.tickets.Keys, late);
    var r1 := SweepRows(db1, db1.tickets.Keys, late);
    var r := SweepRows(db, db.tickets.Keys, late);
    forall u | u in db.wallets ensures r1.wallets[u] == r.wallets[u] {
      assert db1.wallets[u] == if u in s1 then Fold(db.wallets[u]) else db.wallets[u];
      FoldIdempotent(db.wallets[u]);
    }
    assert r1.wallets == r.wallets;
  }

  lemma CatchUpTickets(db: Db, early: int, late: int)
    requires early <= late
    ensures Sweep(Sweep(db, early), late).tickets == Sweep(db, late).tickets
  {
    var r1 := Sweep(Sweep(db, early), late);
    var r := Sweep(db, late);
    forall id | id in db.tickets ensures r1.tickets[id] == r.tickets[id] {
    }
  }

  /** A tick at `early` followed by a tick at `late` has the same effect as a
      single tick at `late`: a ticket skipped because it was not yet eligible is
      simply picked up by a later tick, and nothing is released twice. */
  lemma SweepCatchUp(db: Db, early: int, late: int)
    requires early <= late
    ensures Sweep(Sweep(db, early), late) == Sweep(db, late)
  {
    CatchUpWallets(db, early, late);
    CatchUpTickets(db, early, late);
  }

  /** Running the sweep twice at the same instant: the second run changes
      nothing, because every ticket eligible at that instant is already flagged. */
  lemma SweepIdempotent(db: Db, now: int)
    ensures Sweep(Sweep(db, now), now) == Sweep(db, now)
  {
    SweepCatchUp(db, now, now);
  }

  /** The release is per seller, not per ticket. A seller with two sold tickets,
      one past its halfway point and one not yet departed, gets the escrow of
      both released by the first tick; the later tick that flags the second
      ticket moves nothing. */
  lemma SweepReleasesOtherTicketsEarly(seller: UserId, buyer: UserId)
    ensures
      var due := Ticket(seller, Some(buyer), "A", "B", 100, "first", "img", 0, 60, Sold, false);
      var later := Ticket(seller, Some(buyer), "A", "B", 100, "first", "img", 10 * MsPerMinute * 60, 60, Sold, false);
      var db := Db(map[seller := Wallet(0, 180)], map[1 := due, 2 := later]);
      var now := 31 * MsPerMinute;
      var r := Sweep(db, now);
      && r.wallets[seller] == Wallet(180, 0)
      && r.tickets[1].released
      && !r.tickets[2].released
      && Sweep(r, 11 * MsPerMinute * 60).wallets[seller] == Wallet(180, 0)
      && Sweep(r, 11 * MsPerMinute * 60).tickets[2].released
  {
    var due := Ticket(seller, Some(buyer), "A", "B", 100, "first", "img", 0, 60, Sold, false);
    var later := Ticket(seller, Some(buyer), "A", "B", 100, "first", "img", 10 * MsPerMinute * 60, 60, Sold, false);
    var db := Db(map[seller := Wallet(0, 180)], map[1 := due, 2 := later]);
    assert Due(db.tickets[1], 31 * MsPerMinute);
  }
}
