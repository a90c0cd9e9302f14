/**
 * The `payments` table as the gateway `approvePayment`/`completePayment`
 * of api.php write it, keyed by `payment_id` (the key its
 * `ON DUPLICATE KEY UPDATE` relies on).
 */
module Payments {
  import opened Php

  /** A row of `payments`. Columns written elsewhere are kept as they are. */
  datatype Payment = Payment(
    status: string,
    txId: Option<string>,
    createdAt: Option<int>,
    updatedAt: Option<int>,
    paymentType: Option<string>,
    username: Option<string>,
    userUid: Option<string>)

  /**
   * `INSERT ... VALUES (?, 'approved', NOW()) ON DUPLICATE KEY UPDATE
   * status = 'approved', updated_at = NOW()`: an upsert with no status guard.
   */
  function Approve(payments: map<string, Payment>, id: string, now: int): (r: map<string, Payment>)
    ensures r.Keys == payments.Keys + {id}
    ensures r[id].status == "approved"
    ensures id in payments ==> r[id] == payments[id].(status := "approved", updatedAt := Some(now))
    ensures id !in payments ==> r[id].createdAt == Some(now) && r[id].txId.None? && r[id].paymentType.None?
    ensures forall k :: k in payments && k != id ==> r[k] == payments[k]
  {
    if id in payments then payments[id := payments[id].(status := "approved", updatedAt := Some(now))]
    else payments[id := Payment("approved", None, Some(now), None, None, None, None)]
  }

  /**
   * `UPDATE payments SET status = 'completed', tx_id = ?, updated_at = NOW()
   * WHERE payment_id = ?`: no row is created for an unknown id.
   */
  function Complete(payments: map<string, Payment>, id: string, txId: string, now: int): (r: map<string, Payment>)
    ensures r.Keys == payments.Keys
    ensures id in payments ==> r[id] == payments[id].(status := "completed", txId := Some(txId), updatedAt := Some(now))
    ensures forall k :: k in payments && k != id ==> r[k] == payments[k]
  {
    if id in payments
    then payments[id := payments[id].(status := "completed", txId := Some(txId), updatedAt := Some(now))]
    else payments
  }

  /** The completed row is a subscription purchase (`payment_type === 'subscription'`). */
  predicate IsSubscription(payments: map<string, Payment>, id: string) {
    id in payments && payments[id].paymentType == Some("subscription")
  }

  /** Approving a completed payment sends it back to 'approved' and keeps its transaction id. */
  lemma ApproveAfterComplete(payments: map<string, Payment>, id: string, txId: string, t1: int, t2: int)
    requires id in payments
    ensures var r := Approve(Complete(payments, id, txId, t1), id, t2);
      r[id].status == "approved" && r[id].txId == Some(txId)
  {
  }

  /** A second completion overwrites the first one's transaction id. */
  lemma CompleteOverwrites(payments: map<string, Payment>, id: string, tx1: string, tx2: string, t1: int, t2: int)
    requires id in payments
    ensures Complete(Complete(payments, id, tx1, t1), id, tx2, t2)[id].txId == Some(tx2)
  {
  }

  /** Completing an id that was never approved leaves the table as it was. */
  lemma CompleteUnknown(payments: map<string, Payment>, id: string, txId: string, now: int)
    requires id !in payments
    ensures Complete(payments, id, txId, now) == payments
  {
  }

  /** Approval then completion leaves a completed row carrying the transaction id. */
  lemma ApproveThenComplete(payments: map<string, Payment>, id: string, txId: string, t1: int, t2: int)
    ensures var r := Complete(Approve(payments, id, t1), id, txId, t2);
      id in r && r[id].status == "completed" && r[id].txId == Some(txId)
  {
  }
}
