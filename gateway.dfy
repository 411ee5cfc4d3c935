/**
 * The first API gateway's event routing: a payment event ("link_pagamento"
 * or "status_pagamento") goes only to the stream of the user it names, and
 * every other event goes to every connected stream. Each delivered event is
 * `{"type": routing_key, "data": message}`.
 */
module StreamGateway {
  import opened Json
  import opened Dicts
  import opened Streams

  /** The routing keys whose events are private to one user. */
  predicate IsPaymentKey(routingKey: string)
  {
    routingKey == "link_pagamento" || routingKey == "status_pagamento"
  }

  /**
   * The connected clients an event goes to: for a payment event, the client
   * named by the message's "user_id" if it is connected (a non-string id
   * never matches a stream); for any other event, all of them.
   */
  function Recipients(clients: set<string>, routingKey: string, message: Object): (r: set<string>)
    ensures r <= clients
    ensures !IsPaymentKey(routingKey) ==> r == clients
    ensures IsPaymentKey(routingKey) ==> |r| <= 1
    ensures IsPaymentKey(routingKey) ==> forall c | c in r :: Get(message, "user_id") == JStr(c)
    ensures IsPaymentKey(routingKey) && Get(message, "user_id").JStr? && Get(message, "user_id").s in clients ==>
      r == {Get(message, "user_id").s}
  {
    if !IsPaymentKey(routingKey) then clients
    else
      match Get(message, "user_id")
      case JStr(u) => if u in clients then {u} else {}
      case _ => {}
  }

  /** A payment event never reaches a client other than the user it names. */
  lemma PaymentEventsArePrivate(queues: Queues, routingKey: string, message: Object, c: string)
    requires IsPaymentKey(routingKey) && c in queues && Get(message, "user_id") != JStr(c)
    ensures Deliver(queues, Recipients(queues.Keys, routingKey, message), Event(routingKey, message))[c] == queues[c]
  {
  }

  /** The gateway's map from connected client id to stream queue. */
  class Gateway {
    var clientQueues: Queues

    constructor ()
      ensures clientQueues == map[]
    {
      clientQueues := map[];
    }

    /** A stream connects: the client id now maps to a fresh, empty queue, replacing any earlier one. */
    method Connect(clientId: string)
      modifies this
      ensures clientQueues == old(clientQueues)[clientId := []]
    {
      clientQueues := clientQueues[clientId := []];
    }

    /**
     * A stream ends: `del client_queues[client_id]`, which fails (and changes
     * nothing) when the entry is already gone.
     */
    method Disconnect(clientId: string) returns (ok: bool)
      modifies this
      ensures ok == (clientId in old(clientQueues))
      ensures clientQueues == old(clientQueues) - {clientId}
    {
      if clientId !in clientQueues {
        return false;
      }
      clientQueues := clientQueues - {clientId};
      ok := true;
    }

    /** The broker `callback` for one event: put it on the queues of its recipients. */
    method Dispatch(routingKey: string, message: Object)
      modifies this
      ensures clientQueues ==
        Deliver(old(clientQueues), Recipients(old(clientQueues).Keys, routingKey, message), Event(routingKey, message))
    {
      var event := Event(routingKey, message);
      ghost var queues := clientQueues;
      ghost var recipients := Recipients(queues.Keys, routingKey, message);
      if routingKey == "link_pagamento" || routingKey == "status_pagamento" {
        var userId := Get(message, "user_id");
        if userId.JStr? && userId.s in clientQueues {
          clientQueues := clientQueues[userId.s := clientQueues[userId.s] + [event]];
        }
        assert clientQueues.Keys == Deliver(queues, recipients, event).Keys;
      } else {
        Broadcast(event);
      }
    }

    /** `for client_id, queue in client_queues.items(): queue.put(event)`. */
    method Broadcast(event: Event)
      modifies this
      ensures clientQueues == Deliver(old(clientQueues), old(clientQueues).Keys, event)
    {
      ghost var queues := clientQueues;
      var clients := ListKeys(clientQueues);
      ghost var done: set<string> := {};
      for i := 0 to |clients|
        invariant forall d :: d in done <==> d in clients[..i]
        invariant clientQueues == Deliver(queues, done * queues.Keys, event)
      {
        var c := clients[i];
        assert clients[..i + 1] == clients[..i] + [c];
        DeliverStep(queues, done, queues.Keys, c, event);
        clientQueues := clientQueues[c := clientQueues[c] + [event]];
        done := done + {c};
      }
      assert done * queues.Keys == queues.Keys;
    }
  }
}
