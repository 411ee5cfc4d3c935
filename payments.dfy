/**
 * The payment service's table of pending transactions: each auction winner
 * gets a fresh transaction id mapped to its auction and user, and the
 * payment system's webhook settles a pending transaction exactly once.
 *
 * The fresh id (`str(uuid.uuid4())`) and the outcome of the payment-link
 * request are parameters; broker publications are appended to `published`.
 */
module Payments {
  import opened Wrappers
  import opened Json

  /** A pending transaction: `{"auction_id": ..., "user_id": ...}`. */
  datatype Transaction = Transaction(auctionId: Json, userId: Json)

  type Pending = map<string, Transaction>

  /** A publication on the auction exchange. */
  datatype Publication =
    | PaymentLink(auctionId: Json, userId: Json, link: Json)     // "link_pagamento"
    | PaymentStatus(auctionId: Json, userId: Json, status: Json) // "status_pagamento"

  /** The webhook's answer and what it publishes. */
  datatype Settled = Settled(pending: Pending, code: int, notice: Option<Publication>)

  /** `pendingTransactions.pop(transaction_id, None)` with a webhook's JSON transaction id. */
  function Lookup(pending: Pending, transactionId: Json): (r: Option<string>)
    ensures r.Some? <==> transactionId.JStr? && transactionId.s in pending
    ensures r.Some? ==> r.value == transactionId.s
  {
    match transactionId
    case JStr(t) => if t in pending then Some(t) else None
    case _ => None
  }

  /**
   * `payment_webhook(transaction_id, status)`: a pending id is removed and its
   * status published with the stored auction and user, answering 200; an
   * unknown id answers 404 and publishes nothing.
   */
  function Webhook(pending: Pending, transactionId: Json, status: Json): (r: Settled)
    ensures Lookup(pending, transactionId).None? ==> r == Settled(pending, 404, None)
    ensures Lookup(pending, transactionId).Some? ==>
      var t := transactionId.s;
      && r.code == 200
      && r.pending == pending - {t}
      && r.notice == Some(PaymentStatus(pending[t].auctionId, pending[t].userId, status))
  {
    match Lookup(pending, transactionId)
    case None => Settled(pending, 404, None)
    case Some(t) =>
      var info := pending[t];
      Settled(pending - {t}, 200, Some(PaymentStatus(info.auctionId, info.userId, status)))
  }

  /** A transaction is settled once: a second webhook for the same id answers 404 and publishes nothing. */
  lemma SettledOnce(pending: Pending, transactionId: Json, s1: Json, s2: Json)
    ensures var first := Webhook(pending, transactionId, s1);
      Webhook(first.pending, transactionId, s2) == Settled(first.pending, 404, None)
  {
  }

  /**
   * A winner's transaction, created with a fresh id, is settled by the
   * webhook for that id: 200, the status published for that auction and
   * user, and the table back to what it was.
   */
  lemma WinnerThenWebhook(pending: Pending, t: string, auctionId: Json, userId: Json, status: Json)
    requires t !in pending
    ensures var r := Webhook(pending[t := Transaction(auctionId, userId)], JStr(t), status);
      r.code == 200 && r.pending == pending && r.notice == Some(PaymentStatus(auctionId, userId, status))
  {
    var r := Webhook(pending[t := Transaction(auctionId, userId)], JStr(t), status);
    assert r.pending.Keys == pending.Keys;
  }

  /** The service's pending-transaction table and its publications. */
  class PaymentService {
    var pendingTransactions: Pending
    var published: seq<Publication>

    constructor ()
      ensures pendingTransactions == map[] && published == []
    {
      pendingTransactions := map[];
      published := [];
    }

    /**
     * The winner callback: record the transaction under the fresh id
     * `transactionId`, then publish the payment link if the payment system
     * gave one (`paymentLink` is None when the request failed). The
     * transaction stays pending either way.
     */
    method OnWinner(auctionId: Json, winnerId: Json, value: int, transactionId: string, paymentLink: Option<Json>)
      modifies this
      ensures pendingTransactions == old(pendingTransactions)[transactionId := Transaction(auctionId, winnerId)]
      ensures published == old(published) +
        match paymentLink { case None => [] case Some(link) => [PaymentLink(auctionId, winnerId, link)] }
    {
      pendingTransactions := pendingTransactions[transactionId := Transaction(auctionId, winnerId)];
      if paymentLink.Some? {
        published := published + [PaymentLink(auctionId, winnerId, paymentLink.value)];
      }
    }

    /** `payment_webhook`: settle a pending transaction, or answer 404. */
    method PaymentWebhook(transactionId: Json, status: Json) returns (code: int)
      modifies this
      ensures var r := Webhook(old(pendingTransactions), transactionId, status);
        && code == r.code
        && pendingTransactions == r.pending
        && published == old(published) + r.notice.ToSeq()
    {
      var transactionInfo: Option<Transaction> := None;
      if transactionId.JStr? && transactionId.s in pendingTransactions {
        transactionInfo := Some(pendingTransactions[transactionId.s]);
        pendingTransactions := pendingTransactions - {transactionId.s};
      }
      if transactionInfo.Some? {
        var info := transactionInfo.value;
        published := published + [PaymentStatus(info.auctionId, info.userId, status)];
        return 200;
      } else {
        return 404;
      }
    }
  }
}
