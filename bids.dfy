/**
 * The `auction_bids` table of api.php and the queries run over it: the
 * highest bid per lot, the soft delete of a user's bids, and the per-user
 * bid status map.
 */
module Bids {
  import opened Php

  /** The five lots every auction routine walks through, in this order. */
  const Items: seq<string> := ["item1", "item2", "item3", "item4", "item5"]

  /**
   * A row of `auction_bids`. `timestamp` is the insertion time and
   * `updatedAt` is set by a withdrawal; amounts are whole numbers.
   */
  datatype Bid = Bid(
    username: string,
    userUid: string,
    itemId: string,
    amount: int,
    isActive: bool,
    timestamp: int,
    updatedAt: Option<int>)

  /** A row of `item` that the query looks at (`AND is_active = 1` when `activeOnly`). */
  predicate Eligible(b: Bid, item: string, activeOnly: bool) {
    b.itemId == item && (b.isActive || !activeOnly)
  }

  /**
   * `SELECT ... WHERE item_id = ? [AND is_active = 1] ORDER BY bid_amount
   * DESC LIMIT 1`: a row with the largest amount among the eligible ones.
   * Among equal amounts the earliest row is taken (SQL leaves that open).
   */
  function Top(rows: seq<Bid>, item: string, activeOnly: bool): (r: Option<Bid>)
    ensures r.None? <==> forall i :: 0 <= i < |rows| ==> !Eligible(rows[i], item, activeOnly)
    ensures r.Some? ==> r.value in rows && Eligible(r.value, item, activeOnly)
    ensures r.Some? ==>
      forall i :: 0 <= i < |rows| && Eligible(rows[i], item, activeOnly) ==> rows[i].amount <= r.value.amount
  {
    if rows == [] then None
    else
      var last := rows[|rows| - 1];
      var best := Top(rows[..|rows| - 1], item, activeOnly);
      if Eligible(last, item, activeOnly) && (best.None? || best.value.amount < last.amount)
      then Some(last)
      else best
  }

  /** A new row as `submitAuctionBid` inserts it (`is_active` defaults to 1). */
  function NewBid(username: string, userUid: string, itemId: string, amount: int, now: int): (b: Bid)
    ensures b.isActive && b.updatedAt.None? && b.timestamp == now
    ensures b.username == username && b.userUid == userUid && b.itemId == itemId && b.amount == amount
  {
    Bid(username, userUid, itemId, amount, true, now, None)
  }

  // ---------------------------------------------------------------------
  // removeAuctionBid
  // ---------------------------------------------------------------------

  /** `WHERE username = ? AND item_id = ? AND is_active = 1`. */
  predicate ActiveMatch(b: Bid, username: string, item: string) {
    b.username == username && b.itemId == item && b.isActive
  }

  /** Whether the soft delete finds a row to change (its `rowCount() > 0`). */
  predicate HasActive(rows: seq<Bid>, username: string, item: string) {
    exists i :: 0 <= i < |rows| && ActiveMatch(rows[i], username, item)
  }

  /** The number of active rows of `username` on `item`. */
  function ActiveCount(rows: seq<Bid>, username: string, item: string): (n: nat)
    ensures n <= |rows|
    ensures n > 0 <==> HasActive(rows, username, item)
  {
    if rows == [] then 0
    else
      var init := rows[..|rows| - 1];
      var n0 := ActiveCount(init, username, item);
      assert forall i :: 0 <= i < |init| ==> init[i] == rows[i];
      if ActiveMatch(rows[|rows| - 1], username, item) then n0 + 1 else n0
  }

  /** The row after `SET is_active = 0, updated_at = NOW()`, when it matched. */
  function Withdrawn(b: Bid, username: string, item: string, now: int): Bid {
    if ActiveMatch(b, username, item) then b.(isActive := false, updatedAt := Some(now)) else b
  }

  /** The table after the soft delete of `username`'s bids on `item`. */
  function Withdraw(rows: seq<Bid>, username: string, item: string, now: int): (r: seq<Bid>)
    ensures |r| == |rows|
    ensures forall i :: 0 <= i < |rows| ==>
      r[i].username == rows[i].username && r[i].itemId == rows[i].itemId && r[i].amount == rows[i].amount
    ensures forall i :: 0 <= i < |rows| && !ActiveMatch(rows[i], username, item) ==> r[i] == rows[i]
    ensures !HasActive(r, username, item)
  {
    seq(|rows|, i requires 0 <= i < |rows| => Withdrawn(rows[i], username, item, now))
  }

  /**
   * The soft delete removes no row, keeps every column but the two it sets,
   * deactivates every matching row and leaves the other rows as they were.
   */
  lemma WithdrawMeaning(rows: seq<Bid>, username: string, item: string, now: int, i: int)
    requires 0 <= i < |rows|
    ensures var r := Withdraw(rows, username, item, now);
      && r[i].username == rows[i].username && r[i].userUid == rows[i].userUid
      && r[i].itemId == rows[i].itemId && r[i].amount == rows[i].amount
      && r[i].timestamp == rows[i].timestamp
      && (ActiveMatch(rows[i], username, item) ==> !r[i].isActive && r[i].updatedAt == Some(now))
      && (!ActiveMatch(rows[i], username, item) ==> r[i] == rows[i])
  {
  }

  /** After a withdrawal the user has no active bid left on the lot. */
  lemma {:induction false} WithdrawClears(rows: seq<Bid>, username: string, item: string, now: int)
    ensures ActiveCount(Withdraw(rows, username, item, now), username, item) == 0
  {
    var r := Withdraw(rows, username, item, now);
    assert forall i :: 0 <= i < |r| ==> !ActiveMatch(r[i], username, item);
  }

  /** When nothing matched, the withdrawal changes nothing (the 404 case). */
  lemma {:induction false} WithdrawNothing(rows: seq<Bid>, username: string, item: string, now: int)
    requires !HasActive(rows, username, item)
    ensures Withdraw(rows, username, item, now) == rows
  {
    var r := Withdraw(rows, username, item, now);
    assert forall i :: 0 <= i < |rows| ==> r[i] == rows[i];
  }

  /** Withdrawing commutes with taking a prefix of the table. */
  lemma WithdrawPrefix(rows: seq<Bid>, username: string, item: string, now: int)
    requires rows != []
    ensures Withdraw(rows, username, item, now)[..|rows| - 1] == Withdraw(rows[..|rows| - 1], username, item, now)
  {
  }

  /**
   * Withdrawn rows still count for the all-rows highest bid used by
   * `getAuctionHighestBids` and `closeAuction`: the lot's top amount and
   * top bidder stay the same.
   */
  lemma {:induction false} WithdrawKeepsTop(rows: seq<Bid>, username: string, item: string, now: int)
    ensures var before, after := Top(rows, item, false), Top(Withdraw(rows, username, item, now), item, false);
      && (after.Some? <==> before.Some?)
      && (after.Some? ==> after.value.amount == before.value.amount && after.value.username == before.value.username)
  {
    if rows != [] {
      var w := Withdraw(rows, username, item, now);
      WithdrawPrefix(rows, username, item, now);
      WithdrawKeepsTop(rows[..|rows| - 1], username, item, now);
      assert w[..|w| - 1] == Withdraw(rows[..|rows| - 1], username, item, now);
    }
  }

  /**
   * Placing a bid never withdraws an earlier one: a user's second bid on a
   * lot leaves both bids active.
   */
  lemma {:induction false} BidsAccumulate(rows: seq<Bid>, b1: Bid, b2: Bid, username: string, item: string)
    requires ActiveMatch(b1, username, item) && ActiveMatch(b2, username, item)
    ensures ActiveCount(rows + [b1] + [b2], username, item) == ActiveCount(rows, username, item) + 2
  {
    assert (rows + [b1] + [b2])[..|rows| + 1] == rows + [b1];
    assert (rows + [b1])[..|rows|] == rows;
  }

  // ---------------------------------------------------------------------
  // getUserBidStatus
  // ---------------------------------------------------------------------

  /** One value of the `bidStatus` map. */
  datatype BidEntry = BidEntry(amount: int, status: string, timestamp: int)

  function EntryOf(b: Bid): (e: BidEntry)
    ensures e.status == (if b.isActive then "active" else "removed")
    ensures e.amount == b.amount && e.timestamp == b.timestamp
  {
    BidEntry(b.amount, if b.isActive then "active" else "removed", b.timestamp)
  }

  /**
   * The map built by the newest-first scan over `rows` (the table in
   * insertion order): later writes win, so the oldest row of each lot
   * decides its entry.
   */
  function StatusScan(rows: seq<Bid>, username: string): (r: map<string, BidEntry>)
    ensures forall item :: item in r <==>
      exists i :: 0 <= i < |rows| && rows[i].username == username && rows[i].itemId == item
  {
    if rows == [] then map[]
    else
      var rest := StatusScan(rows[1..], username);
      assert forall i :: 1 <= i < |rows| ==> rows[i] == rows[1..][i - 1];
      if rows[0].username == username then rest[rows[0].itemId := EntryOf(rows[0])] else rest
  }

  /** The user's first (oldest) row on `item`, by insertion order. */
  function Oldest(rows: seq<Bid>, username: string, item: string): (r: Option<Bid>)
    ensures r.None? <==> forall i :: 0 <= i < |rows| ==> !(rows[i].username == username && rows[i].itemId == item)
    ensures r.Some? ==> r.value.username == username && r.value.itemId == item
    ensures r.Some? ==>
      exists k :: (0 <= k < |rows| && rows[k] == r.value
        && forall i :: 0 <= i < k ==> !(rows[i].username == username && rows[i].itemId == item))
  {
    if rows == [] then None
    else if rows[0].username == username && rows[0].itemId == item then
      Some(rows[0])
    else
      var r := Oldest(rows[1..], username, item);
      assert forall i :: 1 <= i < |rows| ==> rows[i] == rows[1..][i - 1];
      r
  }

  /**
   * The status map has a key for exactly the lots the user ever bid on, and
   * each entry describes the user's oldest bid on that lot.
   */
  lemma {:induction false} StatusScanOldest(rows: seq<Bid>, username: string, item: string)
    ensures item in StatusScan(rows, username) <==> Oldest(rows, username, item).Some?
    ensures item in StatusScan(rows, username) ==>
      StatusScan(rows, username)[item] == EntryOf(Oldest(rows, username, item).value)
  {
    if rows != [] {
      StatusScanOldest(rows[1..], username, item);
    }
  }
}
