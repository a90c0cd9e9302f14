/**
 * The endpoints of api.php over an in-memory copy of the five tables they
 * touch. Request decoding is done by the caller: every endpoint receives
 * its fields already typed. `now` is the server clock in seconds since the
 * Unix epoch.
 */
module Api {
  import opened Php
  import Config
  import opened Bids
  import opened Winners
  import Payments
  import Profiles
  import opened Subscriptions

  /** A JSON response: success with its message, or an HTTP error code with its error text. */
  datatype Reply = Ok(message: string) | Err(code: int, error: string)

  /**
   * `sanitizeInput`: trims the value. The HTML tag stripping and escaping
   * it also does are not modelled.
   */
  function Sanitize(s: string): (r: string)
    ensures |r| <= |s|
    ensures r != [] ==> !Config.IsSpace(r[0]) && !Config.IsSpace(r[|r| - 1])
  {
    Config.Trim(s)
  }

  /** `validateRequired` as an endpoint sees it: None to go on, or the 400 reply it sends. */
  function Validate(data: map<string, Value>, required: seq<string>): (r: Option<Reply>)
    ensures r.None? <==> forall i :: 0 <= i < |required| ==> Config.Present(data, required[i])
    ensures r.Some? ==>
      (exists k :: 0 <= k < |required| && !Config.Present(data, required[k])
         && (forall i :: 0 <= i < k ==> Config.Present(data, required[i]))
         && r.value == Err(400, Config.MissingMessage(required[k])))
  {
    match Config.ValidateRequired(data, required)
    case Accepted => None
    case Rejected(code, message) => Some(Err(code, message))
  }

  /**
   * Validation looks at the raw input and sanitizing comes after it, so a
   * name made only of blanks is accepted and stored as the empty string.
   */
  lemma BlankNamePasses(name: string)
    requires Config.AllSpace(name) && name != []
    ensures Validate(map["username" := Str(name)], ["username"]).None?
    ensures Sanitize(name) == ""
  {
    assert Config.IsSpace(name[0]) && name != "0";
    assert Config.Present(map["username" := Str(name)], "username");
    Config.TrimAllSpace(name);
  }

  /** The payment deadline of a winner row inserted at `now`. */
  function Deadline(now: int): (d: int)
    ensures d - now == 24 * 3600
  {
    now + Config.AuctionPaymentTimeoutHours * 3600
  }

  /** The five tables the endpoints read and write. */
  class Database {
    var bids: seq<Bid>
    var winners: seq<Winner>
    var payments: map<string, Payments.Payment>
    var subscriptions: seq<Subscription>
    var profiles: map<string, Profiles.Profile>

    /** Auto-increment keys: no row is ever deleted, so row k has id k + 1. */
    ghost predicate Valid()
      reads this
    {
      Winners.Numbered(winners) && Subscriptions.Numbered(subscriptions)
    }

    constructor ()
      ensures Valid()
      ensures bids == [] && winners == [] && payments == map[] && subscriptions == [] && profiles == map[]
    {
      bids, winners, payments, subscriptions, profiles := [], [], map[], [], map[];
    }

    // -------------------------------------------------------------------
    // Bid ledger
    // -------------------------------------------------------------------

    /**
     * `submitAuctionBid`: appends one active row and changes no existing
     * row, not even the same user's earlier bids on the lot. An amount of
     * 0 is refused by `empty()`; a negative amount is accepted.
     */
    method SubmitAuctionBid(username: string, userUid: string, itemId: string, bidAmount: int, now: int)
      returns (r: Reply)
      modifies this`bids
      ensures r.Err? <==> Blank(username) || Blank(userUid) || Blank(itemId) || bidAmount == 0
      ensures r.Err? ==> r.code == 400 && bids == old(bids)
      ensures r.Ok? ==>
        (r.message == "Bid submitted successfully"
         && bids == old(bids) + [NewBid(Sanitize(username), Sanitize(userUid), Sanitize(itemId), bidAmount, now)])
    {
      var data := map["username" := Str(username), "userUid" := Str(userUid), "itemId" := Str(itemId),
                      "bidAmount" := Int(bidAmount)];
      var required := ["username", "userUid", "itemId", "bidAmount"];
      var invalid := Validate(data, required);
      assert Config.Present(data, required[0]) <==> !Blank(username);
      assert Config.Present(data, required[1]) <==> !Blank(userUid);
      assert Config.Present(data, required[2]) <==> !Blank(itemId);
      assert Config.Present(data, required[3]) <==> bidAmount != 0;
      if invalid.Some? {
        var k :| 0 <= k < |required| && !Config.Present(data, required[k]);
        assert k == 0 || k == 1 || k == 2 || k == 3;
        return invalid.value;
      }
      bids := bids + [NewBid(Sanitize(username), Sanitize(userUid), Sanitize(itemId), bidAmount, now)];
      r := Ok("Bid submitted successfully");
    }

    /**
     * `removeAuctionBid`: deactivates every active row of the user on the
     * lot; 404 exactly when there was none.
     */
    method RemoveAuctionBid(username: string, userUid: string, itemId: string, now: int) returns (r: Reply)
      modifies this`bids
      ensures Blank(username) || Blank(userUid) || Blank(itemId) ==> r.Err? && r.code == 400 && bids == old(bids)
      ensures !(Blank(username) || Blank(userUid) || Blank(itemId)) ==>
        var u, item := Sanitize(username), Sanitize(itemId);
        && bids == Withdraw(old(bids), u, item, now)
        && (HasActive(old(bids), u, item) ==> r == Ok("Bid removed successfully"))
        && (!HasActive(old(bids), u, item) ==> r == Err(404, "No active bid found to remove") && bids == old(bids))
    {
      var data := map["username" := Str(username), "userUid" := Str(userUid), "itemId" := Str(itemId)];
      var required := ["username", "userUid", "itemId"];
      var invalid := Validate(data, required);
      assert Config.Present(data, required[0]) <==> !Blank(username);
      assert Config.Present(data, required[1]) <==> !Blank(userUid);
      assert Config.Present(data, required[2]) <==> !Blank(itemId);
      if invalid.Some? {
        var k :| 0 <= k < |required| && !Config.Present(data, required[k]);
        assert k == 0 || k == 1 || k == 2;
        return invalid.value;
      }
      var u, item := Sanitize(username), Sanitize(itemId);
      var found := HasActive(bids, u, item);
      if !found {
        WithdrawNothing(bids, u, item, now);
      }
      bids := Withdraw(bids, u, item, now);
      r := if found then Ok("Bid removed successfully") else Err(404, "No active bid found to remove");
    }

    /**
     * `getAuctionHighestBids`: for each of the five lots, the highest bid
     * over all its rows, withdrawn ones included (None is shown as amount 0
     * and no user).
     */
    method GetAuctionHighestBids() returns (highest: map<string, Option<Bid>>)
      ensures forall item :: item in highest <==> item in Items
      ensures forall item :: item in highest ==> highest[item] == Top(bids, item, false)
    {
      highest := map[];
      var i := 0;
      while i < |Items|
        invariant 0 <= i <= |Items|
        invariant forall item :: item in highest <==> item in Items[..i]
        invariant forall item :: item in highest ==> highest[item] == Top(bids, item, false)
      {
        highest := highest[Items[i] := Top(bids, Items[i], false)];
        assert Items[..i + 1] == Items[..i] + [Items[i]];
        i := i + 1;
      }
      assert Items[..i] == Items;
    }

    /**
     * `getUserBidStatus`: scans the user's rows newest first and lets each
     * overwrite its lot's entry, so every lot the user bid on ends up
     * described by the user's OLDEST bid on it.
     */
    method GetUserBidStatus(username: string) returns (status: map<string, BidEntry>)
      ensures status == StatusScan(bids, username)
      ensures forall item :: item in status <==> Oldest(bids, username, item).Some?
      ensures forall item :: item in status ==> status[item] == EntryOf(Oldest(bids, username, item).value)
    {
      status := map[];
      var i := |bids|;
      while i > 0
        invariant 0 <= i <= |bids|
        invariant status == StatusScan(bids[i..], username)
      {
        i := i - 1;
        assert bids[i..][1..] == bids[i + 1..];
        if bids[i].username == username {
          status := status[bids[i].itemId := EntryOf(bids[i])];
        }
      }
      assert bids[0..] == bids;
      forall item | true
        ensures item in status <==> Oldest(bids, username, item).Some?
        ensures item in status ==> status[item] == EntryOf(Oldest(bids, username, item).value)
      {
        StatusScanOldest(bids, username, item);
      }
    }

    // -------------------------------------------------------------------
    // Settlement
    // -------------------------------------------------------------------

    /**
     * `closeAuction`: inserts a winner for every lot that has any bid, on
     * every call, and returns the winners in lot order.
     */
    method CloseAuction(now: int) returns (awards: seq<Award>)
      requires Valid()
      modifies this`winners
      ensures Valid()
      ensures winners == old(winners) + CloseRows(bids, |old(winners)|, Items, Deadline(now))
      ensures awards == AwardsOf(CloseRows(bids, |old(winners)|, Items, Deadline(now)))
    {
      var deadline := Deadline(now);
      var base := |winners|;
      ghost var table := winners;
      ghost var rows: seq<Winner> := [];
      awards := [];
      var i := 0;
      while i < |Items|
        invariant 0 <= i <= |Items|
        invariant rows == CloseRows(bids, base, Items[..i], deadline)
        invariant winners == old(winners) + rows
        invariant awards == AwardsOf(rows)
      {
        var top := Top(bids, Items[i], false);
        ghost var next := rows;
        if top.Some? {
          assert |winners| == base + |rows|;
          var w := WinnerFrom(|winners| + 1, top.value, Items[i], deadline);
          assert w == WinnerFrom(base + |rows| + 1, Top(bids, Items[i], false).value, Items[i], deadline);
          AwardsOfAppend(rows, w);
          winners := winners + [w];
          awards := awards + [AwardOf(w)];
          next := rows + [w];
        }
        CloseRowsStep(bids, base, Items, deadline, i, rows, next);
        rows := next;
        i := i + 1;
      }
      assert Items[..i] == Items;
      CloseKeepsNumbered(bids, table, Items, deadline);
    }

    /**
     * `calculateWinners`: for each lot, the top ACTIVE bid wins unless a
     * winner row for that user and lot exists already; the reply lists
     * exactly the inserted rows and counts them.
     */
    method CalculateWinners(now: int) returns (awards: seq<Award>, count: int)
      requires Valid()
      modifies this`winners
      ensures Valid()
      ensures winners == old(winners) + CalcRows(bids, old(winners), Items, Deadline(now))
      ensures awards == AwardsOf(CalcRows(bids, old(winners), Items, Deadline(now)))
      ensures count == |awards|
    {
      var deadline := Deadline(now);
      ghost var table := winners;
      ghost var rows: seq<Winner> := [];
      awards, count := [], 0;
      var i := 0;
      while i < |Items|
        invariant 0 <= i <= |Items|
        invariant rows == CalcRows(bids, table, Items[..i], deadline)
        invariant winners == table + rows
        invariant awards == AwardsOf(rows)
        invariant count == |awards|
      {
        var top := Top(bids, Items[i], true);
        ghost var next := rows;
        if top.Some? && !HasWinner(winners, top.value.username, Items[i]) {
          assert |winners| == |table| + |rows|;
          var w := WinnerFrom(|winners| + 1, top.value, Items[i], deadline);
          assert w == WinnerFrom(|table| + |rows| + 1, Top(bids, Items[i], true).value, Items[i], deadline);
          AwardsOfAppend(rows, w);
          winners := winners + [w];
          awards := awards + [AwardOf(w)];
          count := count + 1;
          next := rows + [w];
        }
        CalcRowsStep(bids, table, Items, deadline, i, rows, next);
        rows := next;
        i := i + 1;
      }
      assert Items[..i] == Items;
      CalcKeepsNumbered(bids, table, Items, deadline);
    }

    // -------------------------------------------------------------------
    // Winner payments
    // -------------------------------------------------------------------

    /**
     * The winner-record `approvePayment`: sets the payment id and
     * 'processing' on the row with that id and user, whatever its status.
     */
    method ApproveWinnerPayment(paymentId: string, winnerId: int, username: string) returns (r: Reply)
      requires Valid()
      modifies this`winners
      ensures Valid()
      ensures Blank(paymentId) || winnerId == 0 || Blank(username) ==> r.Err? && r.code == 400 && winners == old(winners)
      ensures !(Blank(paymentId) || winnerId == 0 || Blank(username)) ==>
        var u := Sanitize(username);
        && winners == ApproveRows(old(winners), winnerId, u, Sanitize(paymentId))
        && (r == Ok("Payment approved") <==> HasRecord(old(winners), winnerId, u))
        && (!HasRecord(old(winners), winnerId, u) ==> r == Err(404, "Winner record not found"))
      ensures forall k :: 0 <= k < |winners| && k != winnerId - 1 ==> winners[k] == old(winners)[k]
    {
      var data := map["paymentId" := Str(paymentId), "winnerId" := Int(winnerId), "username" := Str(username)];
      var required := ["paymentId", "winnerId", "username"];
      var invalid := Validate(data, required);
      assert Config.Present(data, required[0]) <==> !Blank(paymentId);
      assert Config.Present(data, required[1]) <==> winnerId != 0;
      assert Config.Present(data, required[2]) <==> !Blank(username);
      if invalid.Some? {
        var k :| 0 <= k < |required| && !Config.Present(data, required[k]);
        assert k == 0 || k == 1 || k == 2;
        return invalid.value;
      }
      var u := Sanitize(username);
      PaymentsKeepNumbered(winners, winnerId, u, Sanitize(paymentId), "", 0);
      PaymentsTouchOneRow(winners, winnerId, u, Sanitize(paymentId), "", 0);
      var found := HasRecord(winners, winnerId, u);
      winners := ApproveRows(winners, winnerId, u, Sanitize(paymentId));
      r := if found then Ok("Payment approved") else Err(404, "Winner record not found");
    }

    /**
     * The winner-record `completePayment`: completes the row only when its
     * stored payment id is the one given; a repeat overwrites the
     * transaction id.
     */
    method CompleteWinnerPayment(paymentId: string, txid: string, winnerId: int, username: string, now: int)
      returns (r: Reply)
      requires Valid()
      modifies this`winners
      ensures Valid()
      ensures Blank(paymentId) || Blank(txid) || winnerId == 0 || Blank(username) ==>
        r.Err? && r.code == 400 && winners == old(winners)
      ensures !(Blank(paymentId) || Blank(txid) || winnerId == 0 || Blank(username)) ==>
        var u, p := Sanitize(username), Sanitize(paymentId);
        && winners == CompleteRows(old(winners), winnerId, u, p, Sanitize(txid), now)
        && (r == Ok("Payment completed successfully") <==> HasApproved(old(winners), winnerId, u, p))
        && (!HasApproved(old(winners), winnerId, u, p) ==>
              r == Err(404, "Winner record not found or payment not approved") && winners == old(winners))
      ensures forall k :: 0 <= k < |winners| && k != winnerId - 1 ==> winners[k] == old(winners)[k]
    {
      var data := map["paymentId" := Str(paymentId), "txid" := Str(txid), "winnerId" := Int(winnerId),
                      "username" := Str(username)];
      var required := ["paymentId", "txid", "winnerId", "username"];
      var invalid := Validate(data, required);
      assert Config.Present(data, required[0]) <==> !Blank(paymentId);
      assert Config.Present(data, required[1]) <==> !Blank(txid);
      assert Config.Present(data, required[2]) <==> winnerId != 0;
      assert Config.Present(data, required[3]) <==> !Blank(username);
      if invalid.Some? {
        var k :| 0 <= k < |required| && !Config.Present(data, required[k]);
        assert k == 0 || k == 1 || k == 2 || k == 3;
        return invalid.value;
      }
      var u, p := Sanitize(username), Sanitize(paymentId);
      PaymentsKeepNumbered(winners, winnerId, u, p, Sanitize(txid), now);
      PaymentsTouchOneRow(winners, winnerId, u, p, Sanitize(txid), now);
      var found := HasApproved(winners, winnerId, u, p);
      if !found {
        CompleteUnapproved(winners, winnerId, u, p, Sanitize(txid), now);
      }
      winners := CompleteRows(winners, winnerId, u, p, Sanitize(txid), now);
      r := if found then Ok("Payment completed successfully")
           else Err(404, "Winner record not found or payment not approved");
    }

    // -------------------------------------------------------------------
    // Gateway payments
    // -------------------------------------------------------------------

    /**
     * The gateway `approvePayment`. `apiKey` is `PI_API_KEY` and
     * `gatewayOk` whether the gateway's approve call answered.
     */
    method ApproveGatewayPayment(paymentId: string, apiKey: string, gatewayOk: bool, now: int) returns (r: Reply)
      modifies this`payments
      ensures Blank(paymentId) ==> r == Err(400, Config.MissingMessage("paymentId")) && payments == old(payments)
      ensures !Blank(paymentId) && Blank(apiKey) ==>
        r == Err(500, "Pi API key not configured") && payments == old(payments)
      ensures !Blank(paymentId) && !Blank(apiKey) && !gatewayOk ==>
        r == Err(400, "Payment approval failed") && payments == old(payments)
      ensures !Blank(paymentId) && !Blank(apiKey) && gatewayOk ==>
        r == Ok("Payment approved") && payments == Payments.Approve(old(payments), Sanitize(paymentId), now)
    {
      var data := map["paymentId" := Str(paymentId)];
      var invalid := Validate(data, ["paymentId"]);
      assert Config.Present(data, "paymentId") <==> !Blank(paymentId);
      if invalid.Some? {
        return invalid.value;
      }
      if Blank(apiKey) {
        return Err(500, "Pi API key not configured");
      }
      if !gatewayOk {
        return Err(400, "Payment approval failed");
      }
      payments := Payments.Approve(payments, Sanitize(paymentId), now);
      r := Ok("Payment approved");
    }

    /**
     * `createSubscriptionFromPayment`: a 30-day row for the payment's user,
     * then that user's profile is marked as subscribed.
     */
    method CreateSubscriptionFromPayment(paymentId: string, p: Payments.Payment, now: int)
      requires Valid()
      modifies this`subscriptions, this`profiles
      ensures Valid()
      ensures subscriptions == old(subscriptions) + [FromPaymentRow(|old(subscriptions)| + 1, paymentId, p, Today(now))]
      ensures profiles == Profiles.MarkActive(old(profiles), p.username)
    {
      ExtendKeepsNumbered(subscriptions, "", "", "", FromPaymentRow(|subscriptions| + 1, paymentId, p, Today(now)));
      subscriptions := subscriptions + [FromPaymentRow(|subscriptions| + 1, paymentId, p, Today(now))];
      profiles := Profiles.MarkActive(profiles, p.username);
    }

    /**
     * The gateway `completePayment`: no API-key check; on a gateway answer
     * the payment row (if any) is completed, and a subscription payment
     * also creates a subscription. The reply is a success even when no
     * payment row exists.
     */
    method CompleteGatewayPayment(paymentId: string, txId: string, gatewayOk: bool, now: int) returns (r: Reply)
      requires Valid()
      modifies this`payments, this`subscriptions, this`profiles
      ensures Valid()
      ensures Blank(paymentId) || Blank(txId) || !gatewayOk ==>
        r.Err? && r.code == 400 && payments == old(payments)
        && subscriptions == old(subscriptions) && profiles == old(profiles)
      ensures !Blank(paymentId) && !Blank(txId) && !gatewayOk ==> r == Err(400, "Payment completion failed")
      ensures !Blank(paymentId) && !Blank(txId) && gatewayOk ==>
        var id := Sanitize(paymentId);
        && r == Ok("Payment completed")
        && payments == Payments.Complete(old(payments), id, Sanitize(txId), now)
        && (Payments.IsSubscription(payments, id) ==>
              subscriptions == old(subscriptions) + [FromPaymentRow(|old(subscriptions)| + 1, id, payments[id], Today(now))]
              && profiles == Profiles.MarkActive(old(profiles), payments[id].username))
        && (!Payments.IsSubscription(payments, id) ==>
              subscriptions == old(subscriptions) && profiles == old(profiles))
    {
      var data := map["paymentId" := Str(paymentId), "txId" := Str(txId)];
      var required := ["paymentId", "txId"];
      var invalid := Validate(data, required);
      assert Config.Present(data, required[0]) <==> !Blank(paymentId);
      assert Config.Present(data, required[1]) <==> !Blank(txId);
      if invalid.Some? {
        var k :| 0 <= k < |required| && !Config.Present(data, required[k]);
        assert k == 0 || k == 1;
        return invalid.value;
      }
      if !gatewayOk {
        return Err(400, "Payment completion failed");
      }
      var id := Sanitize(paymentId);
      payments := Payments.Complete(payments, id, Sanitize(txId), now);
      if Payments.IsSubscription(payments, id) {
        CreateSubscriptionFromPayment(id, payments[id], now);
      }
      r := Ok("Payment completed");
    }

    // -------------------------------------------------------------------
    // Subscription lifecycle
    // -------------------------------------------------------------------

    /** `approveSubscriptionPayment`: validates and answers; it only logs. */
    method ApproveSubscriptionPayment(paymentId: string, username: string, userUid: string) returns (r: Reply)
      ensures r.Err? <==> Blank(paymentId) || Blank(username) || Blank(userUid)
      ensures r.Err? ==> r.code == 400
      ensures r.Ok? ==> r.message == "Subscription payment approved"
    {
      var data := map["paymentId" := Str(paymentId), "username" := Str(username), "userUid" := Str(userUid)];
      var required := ["paymentId", "username", "userUid"];
      var invalid := Validate(data, required);
      assert Config.Present(data, required[0]) <==> !Blank(paymentId);
      assert Config.Present(data, required[1]) <==> !Blank(username);
      assert Config.Present(data, required[2]) <==> !Blank(userUid);
      if invalid.Some? {
        var k :| 0 <= k < |required| && !Config.Present(data, required[k]);
        assert k == 0 || k == 1 || k == 2;
        return invalid.value;
      }
      r := Ok("Subscription payment approved");
    }

    /**
     * `completeSubscriptionPayment`: extends every active row of a user who
     * has a current subscription, otherwise inserts a 30-day row. The
     * reply always reports today and today + 30, even after an extension.
     */
    method CompleteSubscriptionPayment(paymentId: string, txId: string, username: string, userUid: string, now: int)
      returns (r: Reply, startDate: int, endDate: int)
      requires Valid()
      modifies this`subscriptions
      ensures Valid()
      ensures Blank(paymentId) || Blank(txId) || Blank(username) || Blank(userUid) ==>
        r.Err? && r.code == 400 && subscriptions == old(subscriptions)
      ensures !(Blank(paymentId) || Blank(txId) || Blank(username) || Blank(userUid)) ==>
        && r == Ok("Subscription payment completed successfully")
        && startDate == Today(now) && endDate == Today(now) + 30
        && subscriptions == AfterPayment(old(subscriptions), Sanitize(username), Sanitize(userUid),
                                         Sanitize(paymentId), Sanitize(txId), now)
        && HasLive(subscriptions, Sanitize(username), now)
    {
      startDate, endDate := Today(now), Today(now) + 30;
      var data := map["paymentId" := Str(paymentId), "txId" := Str(txId), "username" := Str(username),
                      "userUid" := Str(userUid)];
      var required := ["paymentId", "txId", "username", "userUid"];
      var invalid := Validate(data, required);
      assert Config.Present(data, required[0]) <==> !Blank(paymentId);
      assert Config.Present(data, required[1]) <==> !Blank(txId);
      assert Config.Present(data, required[2]) <==> !Blank(username);
      assert Config.Present(data, required[3]) <==> !Blank(userUid);
      if invalid.Some? {
        var k :| 0 <= k < |required| && !Config.Present(data, required[k]);
        assert k == 0 || k == 1 || k == 2 || k == 3;
        return invalid.value, startDate, endDate;
      }
      var u, uid, p, tx := Sanitize(username), Sanitize(userUid), Sanitize(paymentId), Sanitize(txId);
      var old_subs := subscriptions;
      ExtendKeepsNumbered(subscriptions, u, p, tx, PaidRow(|subscriptions| + 1, u, uid, p, tx, startDate));
      if HasLive(subscriptions, u, now) {
        subscriptions := Extend(subscriptions, u, p, tx);
      } else {
        subscriptions := subscriptions + [PaidRow(|subscriptions| + 1, u, uid, p, tx, startDate)];
      }
      PaymentLeavesLive(old_subs, u, uid, p, tx, now);
      r := Ok("Subscription payment completed successfully");
    }

    /** `createTestSubscription`: always inserts a 30-day test row. */
    method CreateTestSubscription(username: string, now: int) returns (r: Reply, startDate: int, endDate: int)
      requires Valid()
      modifies this`subscriptions
      ensures Valid()
      ensures Blank(username) ==> r == Err(400, Config.MissingMessage("username")) && subscriptions == old(subscriptions)
      ensures !Blank(username) ==>
        && r == Ok("Test subscription created successfully")
        && startDate == Today(now) && endDate == Today(now) + 30
        && subscriptions == old(subscriptions) + [TestRow(|old(subscriptions)| + 1, Sanitize(username), Today(now))]
    {
      startDate, endDate := Today(now), Today(now) + 30;
      var data := map["username" := Str(username)];
      var invalid := Validate(data, ["username"]);
      assert Config.Present(data, "username") <==> !Blank(username);
      if invalid.Some? {
        return invalid.value, startDate, endDate;
      }
      ExtendKeepsNumbered(subscriptions, "", "", "", TestRow(|subscriptions| + 1, Sanitize(username), startDate));
      subscriptions := subscriptions + [TestRow(|subscriptions| + 1, Sanitize(username), startDate)];
      r := Ok("Test subscription created successfully");
    }

    /** `updateSubscription`: a partial update by id; it always answers success. */
    method UpdateSubscription(id: int, c: Changes, now: int) returns (r: Reply)
      requires Valid()
      modifies this`subscriptions
      ensures Valid()
      ensures r == Ok("Subscription updated")
      ensures subscriptions == Update(old(subscriptions), id, c, now)
    {
      UpdateKeepsNumbered(subscriptions, id, c, now);
      subscriptions := Update(subscriptions, id, c, now);
      r := Ok("Subscription updated");
    }

    /** The `total` and `active` counts of `getSubscriptions`. */
    method GetSubscriptions(now: int) returns (total: int, active: int)
      ensures total == |subscriptions|
      ensures active == CountLive(subscriptions, now)
      ensures 0 <= active <= total
      ensures active > 0 <==> exists i :: 0 <= i < |subscriptions| && Live(subscriptions[i], now)
    {
      total, active := |subscriptions|, 0;
      var i := 0;
      while i < |subscriptions|
        invariant 0 <= i <= |subscriptions|
        invariant active == CountLive(subscriptions[..i], now)
      {
        assert subscriptions[..i + 1][..i] == subscriptions[..i];
        if Live(subscriptions[i], now) {
          active := active + 1;
        }
        i := i + 1;
      }
      assert subscriptions[..i] == subscriptions;
    }

    /** `updateUserProfile`. */
    method UpdateUserProfile(username: string, userUid: string, wallet: Option<string>, now: int)
      modifies this`profiles
      ensures profiles == Profiles.Upsert(old(profiles), username, userUid, wallet, now)
      ensures username in profiles && profiles[username].lastSeen == now
    {
      profiles := Profiles.Upsert(profiles, username, userUid, wallet, now);
    }
  }
}
