/**
 * The `auction_winners` table of api.php: the rows inserted by the two
 * settlement routines (`closeAuction`, `calculateWinners`) and the payment
 * columns the winner-record `approvePayment`/`completePayment` update.
 */
module Winners {
  import opened Php
  import opened Bids

  /** `payment_status`; a new row starts at 'pending' (column default). */
  datatype PaymentStatus = Pending | Processing | Completed

  /** A row of `auction_winners`; `id` is its auto-increment key. */
  datatype Winner = Winner(
    id: int,
    username: string,
    userUid: string,
    itemId: string,
    winningBid: int,
    paymentDeadline: int,
    paymentId: Option<string>,
    paymentStatus: PaymentStatus,
    transactionId: Option<string>,
    paymentCompletedAt: Option<int>)

  /** One element of the `winners` list of a settlement response. */
  datatype Award = Award(itemId: string, winner: string, winningBid: int)

  /** The row the settlement routines insert for the top bid `b` on `item`. */
  function WinnerFrom(id: int, b: Bid, item: string, deadline: int): (w: Winner)
    ensures w.paymentStatus == Pending && w.paymentId.None? && w.transactionId.None?
    ensures w.paymentCompletedAt.None?
    ensures w.id == id && w.username == b.username && w.userUid == b.userUid
    ensures w.itemId == item && w.winningBid == b.amount && w.paymentDeadline == deadline
  {
    Winner(id, b.username, b.userUid, item, b.amount, deadline, None, Pending, None, None)
  }

  function AwardOf(w: Winner): Award {
    Award(w.itemId, w.username, w.winningBid)
  }

  /** The `winners` list that describes the inserted rows, in order. */
  function AwardsOf(rows: seq<Winner>): (r: seq<Award>)
    ensures |r| == |rows|
    ensures forall j :: 0 <= j < |rows| ==> r[j] == AwardOf(rows[j])
  {
    seq(|rows|, j requires 0 <= j < |rows| => AwardOf(rows[j]))
  }

  /** The row `b` won `item` according to the all-rows top-bid query. */
  predicate WonBy(w: Winner, b: Bid, deadline: int) {
    w.username == b.username && w.userUid == b.userUid && w.winningBid == b.amount
    && w.paymentDeadline == deadline && w.paymentStatus == Pending && w.paymentId.None?
  }

  // ---------------------------------------------------------------------
  // closeAuction
  // ---------------------------------------------------------------------

  /**
   * The rows `closeAuction` inserts while walking `items`, with ids
   * continuing after `base`: one per lot that has any bid, withdrawn bids
   * included, whatever the table already holds.
   */
  function CloseRows(bids: seq<Bid>, base: int, items: seq<string>, deadline: int): (r: seq<Winner>)
    ensures |r| <= |items|
    ensures forall j :: 0 <= j < |r| ==> r[j].id == base + j + 1
  {
    if items == [] then []
    else
      var prev := CloseRows(bids, base, items[..|items| - 1], deadline);
      var item := items[|items| - 1];
      match Top(bids, item, false)
      case None => prev
      case Some(b) => prev + [WinnerFrom(base + |prev| + 1, b, item, deadline)]
  }

  /**
   * Each row `closeAuction` inserts records the top bid (over all rows,
   * withdrawn ones included) of one of the walked lots, pending payment.
   */
  lemma {:induction false} CloseRowsWon(bids: seq<Bid>, base: int, items: seq<string>, deadline: int, j: int)
    requires 0 <= j < |CloseRows(bids, base, items, deadline)|
    ensures var w := CloseRows(bids, base, items, deadline)[j];
      && w.itemId in items
      && Top(bids, w.itemId, false).Some? && WonBy(w, Top(bids, w.itemId, false).value, deadline)
  {
    var init := items[..|items| - 1];
    var prev := CloseRows(bids, base, init, deadline);
    var w := CloseRows(bids, base, items, deadline)[j];
    if j < |prev| {
      CloseRowsWon(bids, base, init, deadline, j);
      assert w == prev[j];
      assert w.itemId in init;
    }
  }

  /** No lot occurs twice in the walk. */
  predicate Distinct(items: seq<string>) {
    forall p1, p2 :: 0 <= p1 < p2 < |items| ==> items[p1] != items[p2]
  }

  /** The five lots of the auction are distinct. */
  lemma ItemsDistinct()
    ensures Distinct(Items)
  {
  }

  /**
   * `closeAuction` inserts its rows in walk order: of two inserted rows,
   * the earlier one is for a lot that comes earlier in `items`.
   */
  lemma {:induction false} CloseRowsInOrder(bids: seq<Bid>, base: int, items: seq<string>, deadline: int,
                                            j1: int, j2: int)
    requires 0 <= j1 < j2 < |CloseRows(bids, base, items, deadline)|
    ensures exists p1, p2 ::
      (0 <= p1 < p2 < |items|
       && items[p1] == CloseRows(bids, base, items, deadline)[j1].itemId
       && items[p2] == CloseRows(bids, base, items, deadline)[j2].itemId)
  {
    var init := items[..|items| - 1];
    var prev := CloseRows(bids, base, init, deadline);
    var r := CloseRows(bids, base, items, deadline);
    assert r[j1] == prev[j1];
    if j2 < |prev| {
      CloseRowsInOrder(bids, base, init, deadline, j1, j2);
      var p1, p2 :| 0 <= p1 < p2 < |init| && init[p1] == prev[j1].itemId && init[p2] == prev[j2].itemId;
      assert items[p1] == init[p1] && items[p2] == init[p2];
      assert r[j2] == prev[j2];
    } else {
      CloseRowsWon(bids, base, init, deadline, j1);
      var p1 :| 0 <= p1 < |init| && init[p1] == prev[j1].itemId;
      assert items[p1] == init[p1];
      assert r[j2].itemId == items[|items| - 1];
    }
  }

  /** Over distinct lots, `closeAuction` inserts at most one row per lot. */
  lemma CloseRowsOnePerLot(bids: seq<Bid>, base: int, items: seq<string>, deadline: int)
    requires Distinct(items)
    ensures var r := CloseRows(bids, base, items, deadline);
      forall j1, j2 :: 0 <= j1 < j2 < |r| ==> r[j1].itemId != r[j2].itemId
  {
    var r := CloseRows(bids, base, items, deadline);
    forall j1, j2 | 0 <= j1 < j2 < |r|
      ensures r[j1].itemId != r[j2].itemId
    {
      CloseRowsInOrder(bids, base, items, deadline, j1, j2);
    }
  }

  /** Some row of `rows` is for `item`. */
  predicate Covers(rows: seq<Winner>, item: string) {
    exists j :: 0 <= j < |rows| && rows[j].itemId == item
  }

  lemma CoversAppend(rows: seq<Winner>, w: Winner, item: string)
    ensures Covers(rows + [w], item) <==> Covers(rows, item) || w.itemId == item
  {
    var all := rows + [w];
    if Covers(rows, item) {
      var j :| 0 <= j < |rows| && rows[j].itemId == item;
      assert all[j] == rows[j];
    }
    if w.itemId == item {
      assert all[|rows|] == w;
    }
    if Covers(all, item) {
      var j :| 0 <= j < |all| && all[j].itemId == item;
      if j < |rows| {
        assert rows[j] == all[j];
      }
    }
  }

  /** One more lot walked by `closeAuction`. */
  lemma CloseRowsStep(bids: seq<Bid>, base: int, items: seq<string>, deadline: int, i: int,
                      rows: seq<Winner>, next: seq<Winner>)
    requires 0 <= i < |items|
    requires rows == CloseRows(bids, base, items[..i], deadline)
    requires Top(bids, items[i], false).None? ==> next == rows
    requires Top(bids, items[i], false).Some? ==>
      next == rows + [WinnerFrom(base + |rows| + 1, Top(bids, items[i], false).value, items[i], deadline)]
    ensures CloseRows(bids, base, items[..i + 1], deadline) == next
  {
    assert items[..i + 1][..i] == items[..i];
  }

  lemma AwardsOfAppend(rows: seq<Winner>, w: Winner)
    ensures AwardsOf(rows + [w]) == AwardsOf(rows) + [AwardOf(w)]
  {
  }

  /** Every lot with a bid gets a row, and no lot without one does. */
  lemma {:induction false} CloseCovers(bids: seq<Bid>, base: int, items: seq<string>, deadline: int, item: string)
    requires item in items
    ensures Top(bids, item, false).Some? <==> Covers(CloseRows(bids, base, items, deadline), item)
  {
    var init := items[..|items| - 1];
    var prev := CloseRows(bids, base, init, deadline);
    var last := items[|items| - 1];
    var t := Top(bids, last, false);
    if t.Some? {
      var w := WinnerFrom(base + |prev| + 1, t.value, last, deadline);
      assert CloseRows(bids, base, items, deadline) == prev + [w];
      CoversAppend(prev, w, item);
    } else {
      assert CloseRows(bids, base, items, deadline) == prev;
    }
    if item != last {
      assert item in init;
      CloseCovers(bids, base, init, deadline, item);
    } else if Covers(prev, item) {
      var j :| 0 <= j < |prev| && prev[j].itemId == item;
      CloseRowsWon(bids, base, init, deadline, j);
    }
  }

  /**
   * A second `closeAuction` over the same bids inserts the same winners for
   * the same lots again: only the ids and deadlines differ.
   */
  lemma {:induction false} CloseRepeats(bids: seq<Bid>, base1: int, base2: int, items: seq<string>, d1: int, d2: int)
    ensures |CloseRows(bids, base1, items, d1)| == |CloseRows(bids, base2, items, d2)|
    ensures forall j :: 0 <= j < |CloseRows(bids, base1, items, d1)| ==>
      AwardOf(CloseRows(bids, base1, items, d1)[j]) == AwardOf(CloseRows(bids, base2, items, d2)[j])
  {
    if items != [] {
      CloseRepeats(bids, base1, base2, items[..|items| - 1], d1, d2);
    }
  }

  /**
   * Closing twice leaves a second winner row for every lot that has a bid,
   * for the same user at the same amount: nothing checks for an earlier
   * winner, and both calls report the same `winners` list.
   */
  lemma CloseTwiceDuplicates(bids: seq<Bid>, base: int, items: seq<string>, d1: int, d2: int, item: string)
    requires item in items && Top(bids, item, false).Some?
    ensures var first := CloseRows(bids, base, items, d1);
      var second := CloseRows(bids, base + |first|, items, d2);
      Covers(first, item) && Covers(second, item) && AwardsOf(first) == AwardsOf(second)
  {
    var first := CloseRows(bids, base, items, d1);
    CloseCovers(bids, base, items, d1, item);
    CloseCovers(bids, base + |first|, items, d2, item);
    CloseRepeats(bids, base, base + |first|, items, d1, d2);
  }

  // ---------------------------------------------------------------------
  // calculateWinners
  // ---------------------------------------------------------------------

  /** `SELECT id FROM auction_winners WHERE winner_username = ? AND item_id = ?` finds a row. */
  predicate HasWinner(table: seq<Winner>, username: string, item: string) {
    exists i :: 0 <= i < |table| && table[i].username == username && table[i].itemId == item
  }

  lemma HasWinnerAppend(a: seq<Winner>, b: seq<Winner>, username: string, item: string)
    ensures HasWinner(a + b, username, item) <==> HasWinner(a, username, item) || HasWinner(b, username, item)
  {
    if HasWinner(a + b, username, item) {
      var i :| 0 <= i < |a + b| && (a + b)[i].username == username && (a + b)[i].itemId == item;
      if i >= |a| {
        assert b[i - |a|] == (a + b)[i];
      }
    }
    if HasWinner(a, username, item) {
      var i :| 0 <= i < |a| && a[i].username == username && a[i].itemId == item;
      assert (a + b)[i] == a[i];
    }
    if HasWinner(b, username, item) {
      var i :| 0 <= i < |b| && b[i].username == username && b[i].itemId == item;
      assert (a + b)[|a| + i] == b[i];
    }
  }

  /**
   * The rows `calculateWinners` inserts while walking `items` over `table`:
   * for each lot, the top ACTIVE bid wins unless the table (rows inserted
   * earlier in the same walk included) already holds a row for that user
   * and lot.
   */
  function CalcRows(bids: seq<Bid>, table: seq<Winner>, items: seq<string>, deadline: int): (r: seq<Winner>)
    ensures |r| <= |items|
    ensures forall j :: 0 <= j < |r| ==> r[j].id == |table| + j + 1
  {
    if items == [] then []
    else
      var prev := CalcRows(bids, table, items[..|items| - 1], deadline);
      var item := items[|items| - 1];
      match Top(bids, item, true)
      case None => prev
      case Some(b) =>
        if HasWinner(table + prev, b.username, item) then prev
        else prev + [WinnerFrom(|table| + |prev| + 1, b, item, deadline)]
  }

  /**
   * Each row `calculateWinners` inserts records the top ACTIVE bid of one
   * of the walked lots, pending payment, for a user and lot the table held
   * no row for.
   */
  lemma {:induction false} CalcRowsWon(bids: seq<Bid>, table: seq<Winner>, items: seq<string>, deadline: int, j: int)
    requires 0 <= j < |CalcRows(bids, table, items, deadline)|
    ensures var w := CalcRows(bids, table, items, deadline)[j];
      && w.itemId in items
      && Top(bids, w.itemId, true).Some? && WonBy(w, Top(bids, w.itemId, true).value, deadline)
      && !HasWinner(table, w.username, w.itemId)
  {
    var init := items[..|items| - 1];
    var prev := CalcRows(bids, table, init, deadline);
    var w := CalcRows(bids, table, items, deadline)[j];
    if j < |prev| {
      CalcRowsWon(bids, table, init, deadline, j);
      assert w == prev[j];
      assert w.itemId in init;
    } else {
      HasWinnerAppend(table, prev, w.username, w.itemId);
    }
  }

  /**
   * `calculateWinners` inserts its rows in walk order: of two inserted
   * rows, the earlier one is for a lot that comes earlier in `items`.
   */
  lemma {:induction false} CalcRowsInOrder(bids: seq<Bid>, table: seq<Winner>, items: seq<string>, deadline: int,
                                           j1: int, j2: int)
    requires 0 <= j1 < j2 < |CalcRows(bids, table, items, deadline)|
    ensures exists p1, p2 ::
      (0 <= p1 < p2 < |items|
       && items[p1] == CalcRows(bids, table, items, deadline)[j1].itemId
       && items[p2] == CalcRows(bids, table, items, deadline)[j2].itemId)
  {
    var init := items[..|items| - 1];
    var prev := CalcRows(bids, table, init, deadline);
    var r := CalcRows(bids, table, items, deadline);
    assert r[j1] == prev[j1];
    if j2 < |prev| {
      CalcRowsInOrder(bids, table, init, deadline, j1, j2);
      var p1, p2 :| 0 <= p1 < p2 < |init| && init[p1] == prev[j1].itemId && init[p2] == prev[j2].itemId;
      assert items[p1] == init[p1] && items[p2] == init[p2];
      assert r[j2] == prev[j2];
    } else {
      CalcRowsWon(bids, table, init, deadline, j1);
      var p1 :| 0 <= p1 < |init| && init[p1] == prev[j1].itemId;
      assert items[p1] == init[p1];
      assert r[j2].itemId == items[|items| - 1];
    }
  }

  /** Over distinct lots, `calculateWinners` inserts at most one row per lot. */
  lemma CalcRowsOnePerLot(bids: seq<Bid>, table: seq<Winner>, items: seq<string>, deadline: int)
    requires Distinct(items)
    ensures var r := CalcRows(bids, table, items, deadline);
      forall j1, j2 :: 0 <= j1 < j2 < |r| ==> r[j1].itemId != r[j2].itemId
  {
    var r := CalcRows(bids, table, items, deadline);
    forall j1, j2 | 0 <= j1 < j2 < |r|
      ensures r[j1].itemId != r[j2].itemId
    {
      CalcRowsInOrder(bids, table, items, deadline, j1, j2);
    }
  }

  /** One more lot walked by `calculateWinners`. */
  lemma CalcRowsStep(bids: seq<Bid>, table: seq<Winner>, items: seq<string>, deadline: int, i: int,
                     rows: seq<Winner>, next: seq<Winner>)
    requires 0 <= i < |items|
    requires rows == CalcRows(bids, table, items[..i], deadline)
    requires var top := Top(bids, items[i], true);
      top.None? || HasWinner(table + rows, top.value.username, items[i]) ==> next == rows
    requires var top := Top(bids, items[i], true);
      top.Some? && !HasWinner(table + rows, top.value.username, items[i]) ==>
        next == rows + [WinnerFrom(|table| + |rows| + 1, top.value, items[i], deadline)]
    ensures CalcRows(bids, table, items[..i + 1], deadline) == next
  {
    assert items[..i + 1][..i] == items[..i];
  }

  /** The table's auto-increment ids: no row is ever deleted, so row k has id k + 1. */
  predicate Numbered(table: seq<Winner>) {
    forall k :: 0 <= k < |table| ==> table[k].id == k + 1
  }

  /** `closeAuction` keeps the ids consecutive. */
  lemma CloseKeepsNumbered(bids: seq<Bid>, table: seq<Winner>, items: seq<string>, deadline: int)
    requires Numbered(table)
    ensures Numbered(table + CloseRows(bids, |table|, items, deadline))
  {
    var rows := CloseRows(bids, |table|, items, deadline);
    var all := table + rows;
    forall k | 0 <= k < |all|
      ensures all[k].id == k + 1
    {
      if k >= |table| {
        assert all[k] == rows[k - |table|];
      }
    }
  }

  /** `calculateWinners` keeps the ids consecutive. */
  lemma CalcKeepsNumbered(bids: seq<Bid>, table: seq<Winner>, items: seq<string>, deadline: int)
    requires Numbered(table)
    ensures Numbered(table + CalcRows(bids, table, items, deadline))
  {
    var rows := CalcRows(bids, table, items, deadline);
    var all := table + rows;
    forall k | 0 <= k < |all|
      ensures all[k].id == k + 1
    {
      if k >= |table| {
        assert all[k] == rows[k - |table|];
      }
    }
  }

  /** After the walk, every lot with an active bid has a row for its top bidder. */
  lemma {:induction false} CalcCovers(bids: seq<Bid>, table: seq<Winner>, items: seq<string>, deadline: int, item: string)
    requires item in items && Top(bids, item, true).Some?
    ensures HasWinner(table + CalcRows(bids, table, items, deadline), Top(bids, item, true).value.username, item)
  {
    var u := Top(bids, item, true).value.username;
    var init := items[..|items| - 1];
    var prev := CalcRows(bids, table, init, deadline);
    var r := CalcRows(bids, table, items, deadline);
    HasWinnerAppend(table, r, u, item);
    HasWinnerAppend(table, prev, u, item);
    if item == items[|items| - 1] {
      if !HasWinner(table + prev, u, item) {
        assert r[|r| - 1].username == u && r[|r| - 1].itemId == item;
      }
    } else {
      assert item in init;
      CalcCovers(bids, table, init, deadline, item);
    }
    if HasWinner(prev, u, item) {
      var i :| 0 <= i < |prev| && prev[i].username == u && prev[i].itemId == item;
      assert r[i] == prev[i];
    }
  }

  /** A walk over a table that already covers every lot inserts nothing. */
  lemma {:induction false} CalcNothingNew(bids: seq<Bid>, table: seq<Winner>, items: seq<string>, deadline: int)
    requires forall item :: item in items && Top(bids, item, true).Some? ==>
      HasWinner(table, Top(bids, item, true).value.username, item)
    ensures CalcRows(bids, table, items, deadline) == []
  {
    if items != [] {
      CalcNothingNew(bids, table, items[..|items| - 1], deadline);
      assert items[|items| - 1] in items;
      assert table + [] == table;
    }
  }

  /**
   * `calculateWinners` run twice over unchanged bids: the second run inserts
   * nothing and so reports an empty `winners` list.
   */
  lemma CalcIdempotent(bids: seq<Bid>, table: seq<Winner>, d1: int, d2: int)
    ensures CalcRows(bids, table + CalcRows(bids, table, Items, d1), Items, d2) == []
  {
    var table' := table + CalcRows(bids, table, Items, d1);
    forall item | item in Items && Top(bids, item, true).Some?
      ensures HasWinner(table', Top(bids, item, true).value.username, item)
    {
      CalcCovers(bids, table, Items, d1, item);
    }
    CalcNothingNew(bids, table', Items, d2);
  }

  /**
   * The existence check is keyed on (user, lot), not on the lot: when a
   * higher bid arrives after a run, the next run adds a second winner for
   * the same lot.
   */
  lemma CalcSecondWinner()
    ensures var alice := Bid("alice", "u1", "item1", 10, true, 0, None);
      var bob := Bid("bob", "u2", "item1", 20, true, 1, None);
      var first := CalcRows([alice], [], ["item1"], 0);
      var second := CalcRows([alice, bob], first, ["item1"], 0);
      |first| == 1 && |second| == 1 && first[0].itemId == second[0].itemId == "item1"
      && first[0].username == "alice" && second[0].username == "bob"
  {
    var alice := Bid("alice", "u1", "item1", 10, true, 0, None);
    var bob := Bid("bob", "u2", "item1", 20, true, 1, None);
    assert [alice, bob][..1] == [alice];
    var first := CalcRows([alice], [], ["item1"], 0);
    assert first == [WinnerFrom(1, alice, "item1", 0)];
    assert !HasWinner(first, "bob", "item1");
  }

  // ---------------------------------------------------------------------
  // approvePayment / completePayment (winner records)
  // ---------------------------------------------------------------------

  /** `WHERE id = ? AND winner_username = ?`. */
  predicate ApproveMatch(w: Winner, id: int, username: string) {
    w.id == id && w.username == username
  }

  /** Whether the approval finds its row. */
  predicate HasRecord(table: seq<Winner>, id: int, username: string) {
    exists i :: 0 <= i < |table| && ApproveMatch(table[i], id, username)
  }

  function ApprovedRow(w: Winner, id: int, username: string, paymentId: string): Winner {
    if ApproveMatch(w, id, username) then w.(paymentId := Some(paymentId), paymentStatus := Processing) else w
  }

  /** `SET payment_id = ?, payment_status = 'processing'` on the matching rows. */
  function ApproveRows(table: seq<Winner>, id: int, username: string, paymentId: string): (r: seq<Winner>)
    ensures |r| == |table|
    ensures forall i :: 0 <= i < |table| ==> r[i].id == table[i].id && r[i].itemId == table[i].itemId
    ensures forall i :: 0 <= i < |table| && !ApproveMatch(table[i], id, username) ==> r[i] == table[i]
    ensures HasRecord(table, id, username) ==> HasApproved(r, id, username, paymentId)
  {
    seq(|table|, i requires 0 <= i < |table| => ApprovedRow(table[i], id, username, paymentId))
  }

  /** `WHERE id = ? AND winner_username = ? AND payment_id = ?`. */
  predicate CompleteMatch(w: Winner, id: int, username: string, paymentId: string) {
    w.id == id && w.username == username && w.paymentId == Some(paymentId)
  }

  predicate HasApproved(table: seq<Winner>, id: int, username: string, paymentId: string) {
    exists i :: 0 <= i < |table| && CompleteMatch(table[i], id, username, paymentId)
  }

  function CompletedRow(w: Winner, id: int, username: string, paymentId: string, txid: string, now: int): Winner {
    if CompleteMatch(w, id, username, paymentId)
    then w.(paymentStatus := Completed, transactionId := Some(txid), paymentCompletedAt := Some(now))
    else w
  }

  /** `SET payment_status = 'completed', transaction_id = ?, payment_completed_at = NOW()`. */
  function CompleteRows(table: seq<Winner>, id: int, username: string, paymentId: string, txid: string, now: int)
    : (r: seq<Winner>)
    ensures |r| == |table|
    ensures forall i :: 0 <= i < |table| ==> r[i].id == table[i].id && r[i].itemId == table[i].itemId
    ensures forall i :: 0 <= i < |table| && !CompleteMatch(table[i], id, username, paymentId) ==> r[i] == table[i]
    ensures forall i :: 0 <= i < |table| && CompleteMatch(table[i], id, username, paymentId) ==>
      r[i].paymentStatus == Completed && r[i].transactionId == Some(txid)
  {
    seq(|table|, i requires 0 <= i < |table| => CompletedRow(table[i], id, username, paymentId, txid, now))
  }

  /** Payment updates change no id. */
  lemma PaymentsKeepNumbered(table: seq<Winner>, id: int, username: string, paymentId: string, txid: string, now: int)
    requires Numbered(table)
    ensures Numbered(ApproveRows(table, id, username, paymentId))
    ensures Numbered(CompleteRows(table, id, username, paymentId, txid, now))
  {
  }

  /**
   * Ids are unique, so a payment update changes at most one row: the row
   * whose position the id names.
   */
  lemma PaymentsTouchOneRow(table: seq<Winner>, id: int, username: string, paymentId: string, txid: string, now: int)
    requires Numbered(table)
    ensures forall k :: 0 <= k < |table| && k != id - 1 ==>
      ApproveRows(table, id, username, paymentId)[k] == table[k]
      && CompleteRows(table, id, username, paymentId, txid, now)[k] == table[k]
  {
  }

  /**
   * Approval has no status guard: a matching row goes to 'processing' with
   * the new payment id even when its payment was already completed; other
   * rows are untouched.
   */
  lemma ApproveAnyStatus(table: seq<Winner>, id: int, username: string, paymentId: string, i: int)
    requires 0 <= i < |table|
    ensures var r := ApproveRows(table, id, username, paymentId);
      && (ApproveMatch(table[i], id, username) ==>
            r[i].paymentStatus == Processing && r[i].paymentId == Some(paymentId)
            && r[i].transactionId == table[i].transactionId)
      && (!ApproveMatch(table[i], id, username) ==> r[i] == table[i])
  {
  }

  /** Completion needs the approval's payment id: without a match nothing changes. */
  lemma {:induction false} CompleteUnapproved(table: seq<Winner>, id: int, username: string, paymentId: string,
                                              txid: string, now: int)
    requires !HasApproved(table, id, username, paymentId)
    ensures CompleteRows(table, id, username, paymentId, txid, now) == table
  {
    var r := CompleteRows(table, id, username, paymentId, txid, now);
    assert forall i :: 0 <= i < |table| ==> r[i] == table[i];
  }

  /** After an approval, completing with the same payment id finds the row and completes it. */
  lemma {:induction false} ApproveThenComplete(table: seq<Winner>, id: int, username: string, paymentId: string,
                                               txid: string, now: int)
    requires HasRecord(table, id, username)
    ensures var approved := ApproveRows(table, id, username, paymentId);
      && HasApproved(approved, id, username, paymentId)
      && forall i :: 0 <= i < |table| && ApproveMatch(table[i], id, username) ==>
           CompleteRows(approved, id, username, paymentId, txid, now)[i].paymentStatus == Completed
  {
    var approved := ApproveRows(table, id, username, paymentId);
    var i :| 0 <= i < |table| && ApproveMatch(table[i], id, username);
    assert CompleteMatch(approved[i], id, username, paymentId);
  }

  /** A repeated completion overwrites the transaction id recorded by the first. */
  lemma CompleteOverwrites(table: seq<Winner>, id: int, username: string, paymentId: string,
                           tx1: string, tx2: string, t1: int, t2: int, i: int)
    requires 0 <= i < |table| && CompleteMatch(table[i], id, username, paymentId)
    ensures var once := CompleteRows(table, id, username, paymentId, tx1, t1);
      var twice := CompleteRows(once, id, username, paymentId, tx2, t2);
      once[i].transactionId == Some(tx1) && twice[i].transactionId == Some(tx2)
      && twice[i].paymentStatus == Completed && twice[i].paymentCompletedAt == Some(t2)
  {
  }
}
