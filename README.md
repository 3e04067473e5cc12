# Smart Train EG backend: the escrow state machine

This project models the logic under the HTTP and SQL plumbing of the Smart
Train EG ticket marketplace backend (`server/index.js`). Riders register and
get a wallet, sellers list train tickets, buyers purchase them, and the money
of a sale is held in the seller's *locked* balance until a background timer
finds that half of the trip's scheduled duration has passed and moves it to
the seller's *available* balance.

The database is replaced by in-memory tables held in maps:

- `wallets`: user id to `Wallet(available, locked)`;
- `tickets`: ticket id to a `Ticket` row with seller, buyer, route, price,
  type, image, trip start (milliseconds), duration (minutes), `status`
  (`Available` or `Sold`) and the `released` flag;
- `users`: user id to the registered user's columns (without the password hash).

Layout:

- `tables.dfy` (module `Tables`): the rows, the `Db` pair of tables, and the
  row invariant `WellFormed` (a buyer is recorded exactly when the ticket is
  sold; only a sold ticket can be released).
- `escrow.dfy` (module `Escrow`): the purchase transition `Purchase` and one
  tick of the release sweep `Sweep` as functions on `Db`, with the lemmas about
  them (second purchase fails, exact credit, timing boundary, conservation,
  idempotence and catch-up of the sweep, the per-seller release).
- `progress.dfy` (module `TripProgress`): the trip-progress percentage.
- `listing.dfy` (module `Listing`): the listing checks and the batch of
  identical rows a listing inserts.
- `accounts.dfy` (module `Accounts`): the registration field checks.
- `market.dfy` (module `Server`): class `Market`, whose fields are the tables
  and the two serial id counters, and whose methods `Register`, `ListTickets`,
  `Buy` and `ReleaseSweep` update them in place, one request at a time. Each
  method is proved against the functions above; `ReleaseSweep` visits the rows
  its query selects in an arbitrary order (the query has no `ORDER BY`) and is
  proved to end in `Escrow.Sweep` whatever the order.

Assumptions about the database schema, which is not part of this model:
a new wallet row has both balances at 0; a new ticket row is `available`, has
no buyer and is not released; ids are serials; `users.national_id` is unique,
so registering a national id a second time makes the user insert fail.

The intended rules of the marketplace are: a purchase is one atomic step,
ticket prices are positive, balances never go negative, and a release moves the
seller's whole locked balance. Where the code departs from them, the model
follows the code:

- The code runs the availability query and the two updates of a purchase as
  separate statements. The model runs them in sequence and claims nothing
  about concurrent requests.
- Nothing in the code checks the price against the platform fee, so a price
  below 10 makes the seller's locked balance negative
  (`Escrow.PurchaseBelowFeeLocksNegative`); with a price of at least the fee,
  balances stay non-negative (`Escrow.PurchaseKeepsBalancesNonNegative`).
- Because a release moves the whole locked balance, it includes money locked
  for the seller's other tickets that are not yet half-way
  (`Escrow.SweepReleasesOtherTicketsEarly`).

## Model

| member | source | states |
|---|---|---|
| `Escrow.OnSale` | server/index.js:192-198 | the availability query: the ticket row exists and its status is `available`; `Escrow.Purchase` fails exactly when it does not hold |
| `Escrow.CreditLocked` | server/index.js:203-208 | the wallet update of a purchase: the set of wallet rows is kept, an existing seller wallet gets `amount` added to its locked balance with the available balance kept, a seller without a wallet row is left as it is (the update matches no row), and every other wallet is unchanged |
| `Escrow.Purchase` | server/index.js:189-215 | fails exactly when the ticket is missing or not `available`; otherwise, if the seller has a wallet row, its locked balance grows by exactly price - 10 with the available balance kept (with no wallet row no wallet changes); every wallet other than the seller's is unchanged, which includes the buyer's whenever the buyer is not the seller; every other ticket is unchanged, and the ticket becomes `sold` with the caller as buyer, nothing else in it changing |
| `Escrow.PurchaseTwiceFails` | server/index.js:192-198 | after a successful purchase, any further purchase of the same ticket, by anyone, fails |
| `Escrow.PurchaseOfHundred` | server/index.js:201-208 | a ticket priced 100 adds exactly 90 to the seller's locked balance and leaves the buyer's wallet as it was |
| `Escrow.PurchasePreservesWellFormed` | server/index.js:210-215 | a purchase keeps every ticket row well formed (buyer set iff sold, released only when sold) |
| `Escrow.PurchaseKeepsBalancesNonNegative` | server/index.js:201-208 | when the ticket's price is at least the fee, non-negative balances stay non-negative |
| `Escrow.PurchaseBelowFeeLocksNegative` | server/index.js:201-208 | a ticket priced 5 drives the seller's locked balance from 0 to -5 |
| `Escrow.ReleaseAt` | server/index.js:267-270 | the halfway instant: trip start plus half the duration in milliseconds; `Escrow.ReleaseAtIsHalfway` shows the halving is exact |
| `Escrow.Pending` | server/index.js:261-264 | the sweep's selection: sold and not yet released |
| `Escrow.Eligible` | server/index.js:272 | the time test `now >= half`; `Escrow.EligibleIffHalfElapsed` restates it as at least half the trip elapsed |
| `Escrow.ReleaseAtIsHalfway` | server/index.js:267-270 | the halving of the duration in milliseconds is exact: twice the offset is the whole duration |
| `Escrow.EligibleIffHalfElapsed` | server/index.js:268-272 | a ticket is eligible exactly when at least half of its trip has elapsed |
| `Escrow.SixtyMinuteBoundary` | server/index.js:268-272 | a 60-minute trip is not eligible 29 minutes after departure and is eligible at 30 and at 31 minutes |
| `Escrow.Fold` | server/index.js:273-279 | a release keeps available + locked and leaves locked at 0 |
| `Escrow.FoldIdempotent` | server/index.js:273-279 | releasing a wallet a second time changes nothing |
| `Escrow.Sweep` | server/index.js:258-287 | keeps both key sets; conserves available + locked of every wallet; a seller with a due ticket ends with locked 0, any other wallet is unchanged; a ticket ends released iff it was released or was sold, unreleased and past its halfway point, and nothing else in any ticket changes |
| `Escrow.VisitRow` | server/index.js:266-286 | one iteration of the loop over a selected row: when eligible, fold the seller's wallet if it exists and flag the ticket if it exists, otherwise no change; `Server.Market.ReleaseRow` is proved equal to it and `Escrow.SweepRowsStep` relates it to the whole sweep |
| `Escrow.SweepRowsStep` | server/index.js:266-286 | visiting one more selected row, in any order, extends the partial sweep by that row's halfway check and two updates |
| `Escrow.SweepRowsNone` | server/index.js:261-266 | before any row is visited the tables are as they were |
| `Escrow.SweepRowsSelected` | server/index.js:261-264 | visiting every row the query selects (sold and not released) amounts to the whole sweep |
| `Escrow.SweepPreservesWellFormed` | server/index.js:281-284 | the sweep keeps every ticket row well formed |
| `Escrow.SweepKeepsBalancesNonNegative` | server/index.js:273-279 | the sweep keeps non-negative balances non-negative |
| `Escrow.CatchUpSellers` | server/index.js:261-279 | the sellers released by an early tick and then a later tick are exactly the sellers a single later tick releases |
| `Escrow.CatchUpWallets` | server/index.js:273-279 | an early tick followed by a later one leaves the wallets as a single later tick does |
| `Escrow.CatchUpTickets` | server/index.js:281-284 | an early tick followed by a later one leaves the tickets as a single later tick does |
| `Escrow.SweepCatchUp` | server/index.js:258-287 | a tick at an earlier time followed by one at a later time equals one tick at the later time: a skipped ticket is picked up later and nothing is released twice |
| `Escrow.SweepIdempotent` | server/index.js:262-283 | a second tick at the same time changes nothing |
| `Escrow.SweepReleasesOtherTicketsEarly` | server/index.js:273-279 | a seller with one due and one not-yet-departed sold ticket has the escrow of both released by the first tick; the later tick that flags the second ticket moves nothing |
| `TripProgress.Min` | server/index.js:243-246 | the result is one of the two arguments and at most both |
| `TripProgress.RoundHalfUp` | server/index.js:244 | the result lies within a half of n / d, halves rounding upwards |
| `TripProgress.RoundHalfUpUnique` | server/index.js:244 | only one integer lies within a half of n / d, so the rounding is determined |
| `TripProgress.RoundHalfUpMonotone` | server/index.js:244 | rounding preserves order |
| `TripProgress.RoundHalfUpReaches` | server/index.js:244-246 | the rounded value reaches m exactly when n / d is at least m - 1/2, which fixes where the cap at 100 starts |
| `TripProgress.Progress` | server/index.js:240-246 | never above 100; exactly 100 when, and only when, at least 99.5 percent of the duration has elapsed (so in particular once the whole duration has); below the cap, the elapsed share of the duration rounded to the nearest percent; non-negative after departure (and not bounded below before it) |
| `TripProgress.ProgressMonotone` | server/index.js:240-246 | progress never decreases as time passes |
| `TripProgress.ProgressExamples` | server/index.js:240-246 | a 10-minute trip after 20 minutes is at 100, not 200; a 60-minute trip is at 50 after 30 minutes and at -10 six minutes before departure |
| `Listing.CheckListing` | server/index.js:156-162 | a listing passes exactly when a location is given and the image is not empty; a missing location is reported first |
| `Listing.NewTicket` | server/index.js:165-180 | an inserted row carries the request's seller, route (from and to station), price, ticket type, image and trip window, and is on sale, without buyer, not released, and well formed |
| `Listing.Inserts` | server/index.js:164 | the loop runs `count` times for a positive count and not at all otherwise |
| `Listing.Batch` | server/index.js:164-181 | the rows the loop inserts: `n` copies of one row under the ids first .. first + n - 1, as `Listing.BatchContents` and `Listing.BatchSize` prove |
| `Listing.BatchContents` | server/index.js:164-181 | the rows the loop inserts hold exactly the ids first .. first + n - 1, each mapped to the same row |
| `Listing.ListingStep` | server/index.js:164-181 | one more loop iteration adds the next row of the batch under the next id |
| `Listing.ListingKeepsTableValid` | server/index.js:164-181 | after a listing every id is below the next serial value and every row is well formed |
| `Listing.BatchSize` | server/index.js:164-181 | a batch of n holds exactly n tickets |
| `Listing.ListingAddsExactly` | server/index.js:164-181 | listing n tickets above every existing id adds exactly n tickets and leaves the existing ones unchanged |
| `Listing.BatchIndependentlyPurchasable` | server/index.js:164-181 | every ticket of a batch can be bought, and buying one leaves each other one on sale |
| `Accounts.ValidationError` | server/index.js:59-66 | no error exactly when the national id has 14 characters, the password 6 and the terms are accepted; otherwise the first failing check, in that order |
| `Accounts.NationalIdTaken` | server/index.js:71-86 | a registered user already has the national id, so under the assumed unique constraint the user insert fails and the handler answers "User already exists" |
| `Server.Market.Register` | server/index.js:49-87 | a request failing validation or reusing a national id is refused with no insert; otherwise exactly one user and exactly one wallet at 0/0 are added under a fresh id; tickets are untouched |
| `Server.Market.ListTickets` | server/index.js:142-184 | a refused listing inserts nothing; otherwise the tickets become the old ones plus a batch of `count` (or 0) identical new rows under fresh ids; users and wallets are untouched |
| `Server.Market.Buy` | server/index.js:189-222 | fails exactly when the ticket is not on sale, leaving both tables unchanged; otherwise the tables become `Escrow.Purchase` of the old ones |
| `Server.Market.ReleaseRow` | server/index.js:267-285 | one loop iteration of the sweep: the halfway check for the row, then the wallet release and the flag |
| `Server.Market.ReleaseSweep` | server/index.js:258-287 | visiting the selected rows in any order, the tables end as `Escrow.Sweep` of the old ones; the invariant of the market is kept |

## Left out

- Express routing, CORS, JSON bodies and response shaping: outcomes are result values (`Outcome`, `Result`).
- JWT issuance and verification (`generateToken`, `auth`): the caller's user id is a parameter, and the id `Register` returns stands for the token.
- Password hashing and the login handler: both rest on the bcrypt library, which is not part of this model; the password hash is not a user column here.
- The Postgres pool and the SQL text: replaced by maps; the schema defaults stated above are assumptions.
- The wallet query (`/api/wallet`) and the ticket lookup of `/api/trip/:id`: plain reads with no logic of their own beyond the progress computation, which is modelled.
- The 60-second timer: one tick is one call of `ReleaseSweep` with an explicit `now`.
- Concurrency: the separate statements of a purchase and overlapping sweep ticks can interleave in the real server; the model runs requests one at a time and claims no race-freedom.
- Store failures: a failed query would abandon the rest of a handler or of a sweep tick (nothing catches it there); the model has no failing queries except the duplicate national id at registration.
- `Date` parsing and floating point: times are integer milliseconds.
- TripProgress.Progress: `Math.round` of the floating-point ratio is modelled as round-half-up of the exact rational ratio. The precondition keeps to trips of positive duration, the schema assumption under which a trip has a meaningful progress. The source divides without a check: a zero duration gives an infinite or undefined ratio, and a negative one gives a finite value (-50 for a -60-minute trip 30 minutes after its start). Neither case is modelled.
- Listing.Inserts: `count` is modelled as an integer. It comes from the JSON body unchecked, and `for (let i = 0; i < count; i++)` inserts ceil(count) rows for a positive fractional count and none for a missing or non-numeric one; those inputs are not modelled.
- Prices and balances are integers: the JSON price and the numeric wallet columns could carry fractions, and the fee arithmetic on them is modelled exactly on integers only.
- Accounts.ValidationError: lengths are counted in characters of the string, not in UTF-16 code units, and absent fields (which make the source throw) are not modelled; `termsAccepted` is a bool rather than any truthy value.
- Listing.CheckListing: the location test is a bool saying whether both coordinates were given (truthy), and the image test treats only the empty string as missing.
- The separate GPS-check route: a truthiness test with no state.
- The masking of every registration failure as "User already exists": all insert failures are `UserExists` here.
