# Appraisells auction and subscription bookkeeping, in Dafny

This project models the server side of the Appraisells PHP application. That side runs
an auction over five fixed lots (`item1` … `item5`) and sells 30-day subscriptions, both
paid through an external payment gateway. The model covers:

- the bid ledger (`auction_bids`): placing a bid, withdrawing bids, the highest bid per lot
  and the per-user bid status map;
- the two settlement routines that fill `auction_winners`: `closeAuction` and
  `calculateWinners`;
- the two payment protocols: the gateway `approvePayment`/`completePayment`, which write
  `payments` and can create a subscription, and the winner-record versions, which move
  `auction_winners.payment_status` from pending to processing to completed;
- the subscription lifecycle (`user_subscriptions`): completing a subscription payment
  (extend or insert), test subscriptions, partial updates, the status of one user and the
  active count;
- the auction clock and the user profile upsert (`user_profiles`);
- from config.php: the `.env` loader, the required-field validator and the two business
  constants (`SUBSCRIPTION_DURATION_DAYS` = 30, `AUCTION_PAYMENT_TIMEOUT_HOURS` = 24).

The files are:

| file | module | contents |
|---|---|---|
| php.dfy | `Php` | `Option`, PHP request values and PHP's `empty()` |
| config.dfy | `Config` | `validateRequired`, `trim`, the `.env` line parser and loader (class `Environment` holds `$_ENV`/`$_SERVER`) |
| bids.dfy | `Bids` | bid rows, the top-bid query, the soft delete, the bid status scan |
| winners.dfy | `Winners` | winner rows, the rows each settlement routine inserts, the winner payment updates |
| payments.dfy | `Payments` | the `payments` table and its gateway upsert and update |
| profiles.dfy | `Profiles` | the `user_profiles` upsert and the subscription flag |
| subscriptions.dfy | `Subscriptions` | subscription rows, status, active count, extension, partial update |
| auction_clock.dfy | `AuctionClock` | `getAuctionStatus` |
| api.dfy | `Api` | class `Database` with the five tables as fields and one method per endpoint |

Every endpoint that changes a table is a method of `Api.Database`. Its postcondition gives
the new table as a function of the old one. The lemmas in the table modules state what
those functions mean. Read-only endpoints with a loop (`getAuctionHighestBids`,
`getUserBidStatus`, the count in `getSubscriptions`) are loop methods proved against a
reference function. `Database.Valid()` is the auto-increment invariant: row k of
`auction_winners` and of `user_subscriptions` has id k + 1. Every method that touches those
tables keeps it. The winner payment endpoints use it: because ids are unique, they change at
most the one row that the id names.

The clock is one integer `now`, in seconds since the Unix epoch and read in UTC. A DATE
column holds a day number, so `end_date > NOW()` becomes `endDate * 86400 > now`. Bid
amounts are integers. Every WHERE clause and unique key compares strings exactly, as a binary
collation would.

Where the intended design and the code disagree, the model follows the code:

- the code does not retire a user's earlier active bid on a lot when a new one is placed;
- the highest bid that `getAuctionHighestBids` and `closeAuction` use ignores `is_active`;
- `closeAuction` never checks for an existing winner;
- a negative bid amount is accepted.

Lemmas prove each of these behaviours outright (`Bids.BidsAccumulate`,
`Bids.WithdrawKeepsTop`, `Winners.CloseTwiceDuplicates`, `Api.Database.SubmitAuctionBid`).

## Model

| member | source | states |
|---|---|---|
| Config.ValidateRequired | config.php:101-110 | Accepted exactly when every listed field is set and non-empty in PHP's `empty()` sense; otherwise a 400 whose message names the first failing field in list order |
| Config.Trim | config.php:24-25 | the trimmed text is no longer than the input and neither starts nor ends with a blank |
| Config.TrimMeaning | config.php:24-25 | trimming removes blanks only, from the two ends: the input is blanks + result + blanks |
| Config.TrimAllSpace | config.php:24-25 | a text made only of blanks trims to the empty string |
| Config.TrimIdempotent | config.php:24-25 | trimming a trimmed text changes nothing |
| Config.ExplodeOnce | config.php:23 | `explode('=', $line, 2)`: the head holds no separator, and head + separator + tail gives back the line; without a separator the head is the whole line |
| Config.ExplodeAtFirst | config.php:23 | the split is at the first separator, whatever the tail contains |
| Config.ParseLine | config.php:17-25 | an empty line is skipped, a line whose trimmed text starts with '#' is a comment, and a line without '=' assigns the empty value |
| Config.SplitAtFirstEquals | config.php:23-25 | `name=value` assigns trim(value) to trim(name), even when the value itself contains '=' |
| Config.FirstAssignmentExtend | config.php:27-31 | one more line can only define a name that no earlier line defined |
| Config.FirstAssignmentWins | config.php:27-31 | a second assignment of the same name is ignored; the first one wins |
| Config.LoadStep | config.php:27-31 | one pass of the loop body keeps the loader's invariant |
| Config.LoadFile | config.php:18-32 | after loading a file's lines, a name already in `$_ENV` or `$_SERVER` keeps its entries, and any other name is in both maps exactly when the file assigns it, with the value of its first assignment |
| Config.LoadMeaning | config.php:18-32 | a name already in `$_ENV` or `$_SERVER` keeps its entries; any other name is in both maps exactly when the file assigns it, with the value of its first assignment in both |
| Config.LoadLines | config.php:18-32 | the loop over the lines computes the loader's result line by line |
| Config.Environment.LoadEnvFile | config.php:15-34 | a missing file leaves both maps unchanged; an existing one loads its lines as above |
| Api.Sanitize | config.php:113-115 | the sanitized text is no longer than the input and neither starts nor ends with a blank |
| Api.Validate | config.php:101-110 | an endpoint goes on exactly when every required field is present; otherwise it answers 400 naming the first missing field in list order |
| Api.BlankNamePasses | api.php:582-584 | validation looks at the raw input, so any non-empty name made only of blanks passes it and is then stored as the empty string |
| Api.Deadline | api.php:672 | a winner's payment deadline is 24 hours after the settlement time |
| Bids.Top | api.php:633-642 | no row is found exactly when no row is for the lot (and active, for the active-only query); otherwise the row found is one of the table's rows for the lot, with the largest amount among them |
| Bids.NewBid | api.php:591-595 | a new row is active, carries the given user, lot and amount, the insertion time and no update time |
| Bids.ActiveCount | api.php:824-831 | the number of active rows of the user on the lot is positive exactly when the soft delete finds a row |
| Bids.Withdraw | api.php:824-829 | the soft delete keeps every row, with its user, lot and amount; rows that do not match are unchanged; afterwards the user has no active row on the lot |
| Bids.WithdrawMeaning | api.php:824-829 | the soft delete removes no row; a matching active row becomes inactive with its update time set and keeps all its other columns; every other row is unchanged |
| Bids.WithdrawClears | api.php:824-829 | after a withdrawal the user has no active row left on the lot |
| Bids.WithdrawNothing | api.php:831-839 | when no active row matched (the 404 case), the table is unchanged |
| Bids.WithdrawKeepsTop | api.php:633-642 | a withdrawal changes neither whether a lot has a top bid in the all-rows query nor its amount or bidder |
| Bids.BidsAccumulate | api.php:591-595 | two bids by the same user on the same lot leave two more active rows: placing a bid retires nothing |
| Bids.EntryOf | api.php:861-865 | a status entry carries the row's amount and timestamp, and 'active' or 'removed' from `is_active` |
| Bids.Oldest | api.php:850-857 | the user's first row on the lot in insertion order, or none when the user never bid on it |
| Bids.StatusScan | api.php:850-866 | the status map has a key for exactly the lots the user has a row on |
| Bids.StatusScanOldest | api.php:850-866 | the newest-first scan gives a key for exactly the lots the user bid on, each described by the user's oldest row on it |
| Winners.WinnerFrom | api.php:674-684 | an inserted winner row holds the top bidder, uid and amount, the lot and the deadline, and starts as pending with no payment id |
| Winners.AwardsOf | api.php:686-690 | the `winners` list has one entry per inserted row, in order, with the row's lot, user and amount |
| Winners.CloseRows | api.php:657-692 | `closeAuction` inserts at most as many rows as lots, with ids following the table's last id |
| Winners.CloseRowsInOrder | api.php:660-691 | of two rows `closeAuction` inserts, the earlier one is for a lot that comes earlier in the walk |
| Winners.CloseRowsOnePerLot | api.php:660-691 | over distinct lots, no two rows `closeAuction` inserts are for the same lot |
| Winners.CloseRowsWon | api.php:660-684 | each row `closeAuction` inserts is for a walked lot and records that lot's top bid over all rows, withdrawn ones included |
| Winners.CloseRowsStep | api.php:660-692 | one lot of the walk appends the top bid's row when the lot has a bid, and nothing otherwise |
| Winners.CloseCovers | api.php:660-691 | after `closeAuction`, a lot has a new row exactly when it has any bid |
| Winners.CloseRepeats | api.php:657-694 | two runs over the same bids insert the same number of rows, with the same lot, user and amount at each position |
| Winners.CloseTwiceDuplicates | api.php:657-694 | a second `closeAuction` inserts a second winner row for every lot with a bid and reports the same `winners` list |
| Winners.CalcRows | api.php:911-953 | `calculateWinners` inserts at most as many rows as lots, with ids following the table's last id |
| Winners.CalcRowsInOrder | api.php:911-952 | of two rows `calculateWinners` inserts, the earlier one is for a lot that comes earlier in the walk |
| Winners.CalcRowsOnePerLot | api.php:911-952 | over distinct lots, no two rows `calculateWinners` inserts are for the same lot |
| Winners.CalcRowsWon | api.php:912-944 | each row `calculateWinners` inserts is for a walked lot, records its top ACTIVE bid, and is for a user and lot the table had no row for |
| Winners.CalcRowsStep | api.php:911-953 | one lot of the walk appends a row exactly when the lot has an active bid and no row for that bidder and lot exists yet |
| Winners.CalcCovers | api.php:922-952 | after `calculateWinners`, every lot with an active bid has a row for its top bidder |
| Winners.CalcNothingNew | api.php:924-930 | when every top bidder already has a row for the lot, nothing is inserted |
| Winners.CalcIdempotent | api.php:911-959 | a second `calculateWinners` over unchanged bids inserts nothing and reports an empty list |
| Winners.CalcSecondWinner | api.php:924-930 | the existence check is keyed on (user, lot): a higher bid by another user after a run gives the lot a second winner row |
| Winners.CloseKeepsNumbered | api.php:674-677 | `closeAuction` keeps the winner ids consecutive |
| Winners.CalcKeepsNumbered | api.php:933-936 | `calculateWinners` keeps the winner ids consecutive |
| Winners.PaymentsKeepNumbered | api.php:1029-1070 | the winner payment updates change no id |
| Winners.ApproveRows | api.php:1029-1034 | approval keeps every row's id and lot, leaves rows that do not match id and user unchanged, and, when a row matches, leaves one that completion with the same payment id will find |
| Winners.CompleteRows | api.php:1065-1070 | completion keeps every row's id and lot, leaves rows that do not match id, user and payment id unchanged, and marks each matching row completed with the transaction id |
| Winners.PaymentsTouchOneRow | api.php:1029-1070 | with consecutive ids, approval and completion change no row other than the one at the position the id names |
| Winners.ApproveAnyStatus | api.php:1029-1034 | approval sets the payment id and 'processing' on the row with that id and user whatever its status, keeps its transaction id, and leaves every other row unchanged |
| Winners.CompleteUnapproved | api.php:1065-1070 | completion without a row matching id, user AND stored payment id changes nothing |
| Winners.ApproveThenComplete | api.php:1029-1070 | after an approval, completing with the same payment id finds the row and marks it completed |
| Winners.CompleteOverwrites | api.php:1065-1070 | a repeated completion overwrites the first transaction id and completion time |
| Payments.Approve | api.php:296-301 | the gateway approval upserts: an existing row becomes 'approved' with its update time set and keeps its other columns, and a new row is 'approved' with its creation time; other rows are unchanged |
| Payments.Complete | api.php:344-349 | completion sets 'completed', the transaction id and the update time on an existing row and creates no row |
| Payments.ApproveAfterComplete | api.php:296-301 | approving a completed payment sends it back to 'approved' and keeps its transaction id |
| Payments.CompleteOverwrites | api.php:344-349 | a second completion overwrites the first transaction id |
| Payments.CompleteUnknown | api.php:344-349 | completing an unknown payment id leaves the table unchanged |
| Payments.ApproveThenComplete | api.php:296-349 | approval followed by completion leaves a completed row carrying the transaction id |
| Profiles.Upsert | api.php:183-195 | a new username gets a profile; an existing one gets its last-seen time refreshed, keeps its uid and subscription flag, and keeps its wallet unless a new one is given; other profiles are unchanged |
| Profiles.MarkActive | api.php:391-393 | only the payment user's profile, if there is one, gets subscription status 'active' |
| Profiles.WalletSticks | api.php:189-191 | a later call without a wallet never erases a stored wallet |
| Profiles.UidSticks | api.php:186-191 | the first uid stored for a username survives later upserts |
| AuctionClock.GetAuctionStatus | api.php:787-805 | active exactly before the fixed end time, with the matching status and message and the fixed name and times |
| AuctionClock.EndedStaysEnded | api.php:790-794 | once the auction reports ended it stays ended |
| AuctionClock.ActiveBeforeStart | api.php:794-802 | the start time is never compared: before it the auction already reports active |
| Subscriptions.Today | api.php:1125 | the day number of the day that contains `now` |
| Subscriptions.CountLive | api.php:522-527 | the active count is at most the row count and is positive exactly when some row is active with an end date after now |
| Subscriptions.CountLiveFalls | api.php:524 | as time passes the active count never grows |
| Subscriptions.Latest | api.php:228-235 | the row found is one of the user's active rows with the latest end date, or none when the user has no active row |
| Subscriptions.DaysBetween | api.php:240 | the whole number of days between the end date and now, either way round |
| Subscriptions.StatusOf | api.php:225-258 | a subscription is reported exactly when the user has an active row; the row shown is the user's latest-ending active row; it is expired exactly when its end date is not after now, and current exactly when some active row of the user ends after now; its status is 'expired' or 'active', never 'inactive'; days remaining is the whole number of days between its end date and now |
| Subscriptions.ExpiredShowsDaysSince | api.php:238-240 | for an expired subscription, days remaining counts the whole days since the end date, not 0 |
| Subscriptions.ExpiredExample | api.php:238-247 | a row that ended at the start of day 1, read at the start of day 10, is reported expired with 9 days remaining |
| Subscriptions.LatestDecidesLive | api.php:228-249 | the latest-ending active row is current exactly when any active row of the user is |
| Subscriptions.PaidRow | api.php:1148-1153 | the inserted row is an active monthly row for the user from today to today + 30, carrying the payment and transaction ids |
| Subscriptions.TestRow | api.php:764-768 | the test row is an active monthly row from today to today + 30 with the note 'Test subscription' and no uid |
| Subscriptions.FromPaymentRow | api.php:375-389 | the row created from a completed payment is active, spans `SUBSCRIPTION_DURATION_DAYS` from today, and carries the payment's user and uid |
| Subscriptions.FreshRowLive | api.php:1124-1131 | a row that is active and ends 30 days after today is current now |
| Subscriptions.AfterPayment | api.php:1128-1154 | a user with a current subscription has every active row extended; otherwise exactly one new paid row is appended |
| Subscriptions.Extend | api.php:1138-1145 | extension keeps every id; each active row of the user stays active and ends 30 days later than before; every other row is unchanged |
| Subscriptions.ExtendMeaning | api.php:1138-1145 | extension adds 30 days to each active row of the user counting from its own end date, stamps the new payment and transaction ids, and leaves every other row unchanged |
| Subscriptions.ExtendStaleRow | api.php:1138-1145 | the extension also touches an active row that has already ended; one ended more than 30 days ago gets the payment ids and is still not current |
| Subscriptions.PaymentLeavesLive | api.php:1128-1154 | after a completed subscription payment the user has a current subscription |
| Subscriptions.ExtendKeepsNumbered | api.php:1138-1153 | extending, or inserting with the next id, keeps the subscription ids consecutive |
| Subscriptions.UpdateKeepsNumbered | api.php:564-571 | a partial update changes no id |
| Subscriptions.Update | api.php:564-571 | a partial update keeps every id and owner and changes no row with another id |
| Subscriptions.UpdateMeaning | api.php:546-571 | with no field given nothing changes; otherwise only the row with that id changes, only in the given fields and its update time |
| Api.Database.SubmitAuctionBid | api.php:581-607 | with the amount given as an integer: an error exactly when a field is blank or the amount is 0 (a negative amount passes); on success exactly one new active row is appended and no existing row changes |
| Api.Database.RemoveAuctionBid | api.php:813-844 | 400 on a blank field; otherwise the table becomes the soft delete of the old one, and the reply is 404 exactly when no active row matched (then the table is unchanged) |
| Api.Database.GetAuctionHighestBids | api.php:625-650 | the reply has an entry for exactly the five lots, each the top bid over all rows of the lot |
| Api.Database.GetUserBidStatus | api.php:847-876 | the status map has a key for exactly the lots the user bid on, each describing the user's oldest bid there |
| Api.Database.CloseAuction | api.php:653-699 | the winner table gains exactly the rows of the walk and the reply lists them in lot order; the id invariant is kept |
| Api.Database.CalculateWinners | api.php:902-965 | the winner table gains exactly the rows of the walk, and the reply lists and counts exactly those rows; the id invariant is kept |
| Api.Database.ApproveWinnerPayment | api.php:1018-1050 | 400 on a missing field; otherwise the matching row is approved, and the reply succeeds exactly when a row has that id and user (404 otherwise); no row at another position changes |
| Api.Database.CompleteWinnerPayment | api.php:1053-1087 | 400 on a missing field; otherwise the reply succeeds exactly when a row matches id, user and stored payment id; on a 404 nothing changes; no row at another position changes |
| Api.Database.ApproveGatewayPayment | api.php:266-311 | 400 on a missing payment id, 500 without an API key, 400 when the gateway fails, all with the payment table unchanged; otherwise the payment is upserted as approved |
| Api.Database.CreateSubscriptionFromPayment | api.php:372-394 | appends one 30-day row for the payment's user with the next id and marks that user's profile subscribed |
| Api.Database.CompleteGatewayPayment | api.php:314-369 | 400 on a missing field or a gateway failure with nothing changed; otherwise the payment row is completed, and a subscription payment also creates a subscription; the reply succeeds even when no payment row exists |
| Api.Database.ApproveSubscriptionPayment | api.php:1090-1110 | succeeds exactly when every required field is present, and changes nothing |
| Api.Database.CompleteSubscriptionPayment | api.php:1113-1177 | 400 on a missing field; otherwise the table becomes the extend-or-insert result, the user has a current subscription, and the reply reports today and today + 30 |
| Api.Database.CreateTestSubscription | api.php:753-784 | 400 on a blank username; otherwise exactly one test row is appended with the next id |
| Api.Database.UpdateSubscription | api.php:542-578 | the table becomes the partial update of the old one and the reply is always a success |
| Api.Database.GetSubscriptions | api.php:516-539 | total is the row count; active is the count of rows that are active and not yet ended, positive exactly when one exists |
| Api.Database.UpdateUserProfile | api.php:183-195 | the profiles become the upsert of the old ones, and the user's last-seen time is now |

## Left out

- api.php declares `approvePayment` and `completePayment` twice (the gateway versions at lines 266 and 314, the winner-record versions at lines 1018 and 1053). PHP refuses a redeclared function, so no single dispatch is modelled. Each version is a method of its own: `ApproveGatewayPayment`, `CompleteGatewayPayment`, `ApproveWinnerPayment`, `CompleteWinnerPayment`.
- The database and gateway settings that config.php reads from the environment (config.php:39-51), and the debug and error-reporting switches (config.php:56-67). The two business constants are modelled.
- HTTP routing, request decoding, CORS headers and `jsonResponse` (api.php:4-139, config.php:3-12, config.php:69-98). Each endpoint takes its fields already decoded. The duplicated, unreachable route cases (api.php:110-114) are not modelled.
- The Pi Network gateway HTTP calls (api.php:277-289, api.php:322-337). Their outcome is the boolean `gatewayOk`, and `PI_API_KEY` is the `apiKey` argument.
- The read-only report endpoints (`getPayments`, `getUserProfiles`, `getUserActivities`, `getSessions`, `getAnalytics`, `getUserDetails`, `getDigitalArt`, `getUserWins`, `getAuctionBids`, `getDebugAuctionData`, `healthCheck`). They pass SELECT results straight through.
- `createUserProfile` and `logAuthentication` (api.php:155-222). `createUserProfile` always passes a wallet string to `updateUserProfile`, the empty string when none is given (api.php:203-206). So re-creating a profile without a wallet erases the stored one. `Profiles.WalletSticks` covers only calls that pass no wallet (null).
- `logActivity`: a fire-and-forget write that swallows its own errors. It is a no-op here.
- Database I/O failures and the 500 replies of the `catch` blocks. The model assumes every query succeeds.
- `putenv`: the process environment is not modelled, only `$_ENV` and `$_SERVER`.
- Api.Sanitize: only the `trim` of `sanitizeInput` is modelled. `strip_tags` and `htmlspecialchars` are not.
- Bid amounts are integers, not the floats of the `(float)` cast. Only their order matters.
- Api.Database.SubmitAuctionBid: takes one integer amount for both roles it plays in the source. The source validates the raw request value (api.php:582) but stores `(float)` of it (api.php:587). So a value such as "abc" or "0.0" passes `empty()` and is stored as a bid of 0. The model does not capture that case.
- String comparison: every WHERE match and unique key (bids, winners, subscriptions, profiles, payments) compares strings exactly. The table schemas are not part of this model. MySQL's default utf8mb4 collations would match case-insensitively and ignore trailing spaces: "Alice" would then also withdraw the bids of "alice". The model assumes binary collation.
- Calendar arithmetic (`date`, `strtotime`, `DateTime`): times are epoch seconds in UTC and dates are day numbers. The auction's fixed times are epoch constants.
- Concurrency. Every endpoint runs alone. The check-then-insert of `calculateWinners` is racy across requests, and the model claims no atomic uniqueness.
- Bids.Top: among equal amounts SQL leaves the row open. The model takes the earliest row, and its contract claims only the maximum.
- Bids.StatusScan: `ORDER BY timestamp DESC` is read as reverse insertion order. Rows with equal timestamps are not reordered.
- The table schemas are not part of this model. The column defaults it relies on are stated as postconditions of the insert functions (`Bids.NewBid`, `Winners.WinnerFrom`), and the unique keys as map keys (`payment_id`, `username`).
- Api.Database.RemoveAuctionBid: success means that some active row matched, not MySQL's `rowCount()`. Here that makes no difference, because a matching row always changes.
- Api.Database.ApproveWinnerPayment: success means that a row matched id and user. MySQL's `rowCount()` would report 0, and so a 404, when the row already held the same payment id in 'processing'.
- Api.Database.CompleteWinnerPayment: success means that a row matched. `rowCount()` is 0 when a completion repeats the stored transaction id within the same second, because `NOW()` has one-second resolution and every SET value is then unchanged. The source answers 404 in that case (api.php:1072-1081); the model answers success.
- Api.Database.ApproveWinnerPayment: the winner id is an integer. In the source it is a sanitized string that the database compares with the id column.
- The `$auctionId` argument of `calculateWinners` is never used, so the model does not take it.
- The `subscriptions` list returned by `getSubscriptions` is the table itself and is not restated.
