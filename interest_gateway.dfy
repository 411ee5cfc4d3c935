/**
 * The second API gateway: clients register and cancel interest in auctions,
 * and an event about an auction that has an interest entry goes only to the
 * interested clients; every other event goes to every connected stream.
 * Each delivered event is `{"type": routing_key, "data": message}`.
 */
module InterestGateway {
  import opened Json
  import opened Dicts
  import opened Streams

  /** `auctionInterests`: auction id to the set of interested client ids, both as the request sent them. */
  type Interests = map<Json, set<Json>>

  /** `auctionInterests[auction_id]`, or the empty set when the auction has no entry. */
  function InterestedIn(interests: Interests, auctionId: Json): set<Json>
  {
    if auctionId in interests then interests[auctionId] else {}
  }

  /**
   * `registrar_interesse` with the body's "clientId" and "auctionId": 400 and
   * no change unless both are truthy; otherwise the client joins the
   * auction's set, created if needed, and the answer is 200.
   */
  function Register(interests: Interests, clientId: Json, auctionId: Json): (r: (Interests, int))
    ensures !Truthy(clientId) || !Truthy(auctionId) ==> r == (interests, 400)
    ensures Truthy(clientId) && Truthy(auctionId) ==>
      && r.1 == 200
      && r.0.Keys == interests.Keys + {auctionId}
      && r.0[auctionId] == InterestedIn(interests, auctionId) + {clientId}
      && forall a | a in interests && a != auctionId :: r.0[a] == interests[a]
  {
    if !Truthy(clientId) || !Truthy(auctionId) then (interests, 400)
    else (interests[auctionId := InterestedIn(interests, auctionId) + {clientId}], 200)
  }

  /**
   * `cancelar_interesse`: 400 and no change unless both ids are truthy;
   * otherwise the client leaves the auction's set if it was there (the set
   * is kept, even when it becomes empty), and the answer is 200.
   */
  function Cancel(interests: Interests, clientId: Json, auctionId: Json): (r: (Interests, int))
    ensures !Truthy(clientId) || !Truthy(auctionId) ==> r == (interests, 400)
    ensures Truthy(clientId) && Truthy(auctionId) ==>
      && r.1 == 200
      && r.0.Keys == interests.Keys
      && (auctionId in interests ==> r.0[auctionId] == interests[auctionId] - {clientId})
      && forall a | a in interests && a != auctionId :: r.0[a] == interests[a]
  {
    if !Truthy(clientId) || !Truthy(auctionId) then (interests, 400)
    else if auctionId in interests && clientId in interests[auctionId] then
      (interests[auctionId := interests[auctionId] - {clientId}], 200)
    else (interests, 200)
  }

  /**
   * The routing filter of the broker callback: a client's stream gets the
   * event unless its "auctionId" is truthy, has an interest entry, and the
   * client's id is not in that entry.
   */
  predicate Wants(interests: Interests, client: string, message: Object)
  {
    var auctionId := Get(message, "auctionId");
    !(Truthy(auctionId) && auctionId in interests && JStr(client) !in interests[auctionId])
  }

  /** The connected clients an event goes to. */
  function Recipients(clients: set<string>, interests: Interests, message: Object): (r: set<string>)
    ensures r <= clients
    ensures forall c | c in clients :: c in r <==> Wants(interests, c, message)
  {
    set c | c in clients && Wants(interests, c, message)
  }

  /** Registering twice is the same as registering once. */
  lemma RegisterIsIdempotent(interests: Interests, clientId: Json, auctionId: Json)
    ensures var once := Register(interests, clientId, auctionId);
      Register(once.0, clientId, auctionId) == once
  {
    var once := Register(interests, clientId, auctionId);
    if Truthy(clientId) && Truthy(auctionId) {
      var twice := Register(once.0, clientId, auctionId);
      assert InterestedIn(once.0, auctionId) + {clientId} == once.0[auctionId];
      assert twice.0 == once.0[auctionId := once.0[auctionId]];
      assert once.0[auctionId := once.0[auctionId]] == once.0;
      assert twice.1 == once.1;
    }
  }

  /**
   * Cancelling right after registering a client that was not interested
   * before gives the auction the interested set it had (an empty one if it
   * had no entry, since cancelling keeps the entry).
   */
  lemma CancelUndoesRegister(interests: Interests, clientId: Json, auctionId: Json)
    requires Truthy(clientId) && Truthy(auctionId)
    requires clientId !in InterestedIn(interests, auctionId)
    ensures var back := Cancel(Register(interests, clientId, auctionId).0, clientId, auctionId).0;
      back == interests[auctionId := InterestedIn(interests, auctionId)]
  {
    var reg := Register(interests, clientId, auctionId).0;
    var back := Cancel(reg, clientId, auctionId).0;
    assert back[auctionId] == InterestedIn(interests, auctionId);
    assert back.Keys == interests[auctionId := InterestedIn(interests, auctionId)].Keys;
  }

  /** A client whose stream id was registered for an auction gets that auction's events. */
  lemma RegisteredClientGetsEvents(interests: Interests, client: string, message: Object)
    requires client != "" && Truthy(Get(message, "auctionId"))
    ensures Wants(Register(interests, JStr(client), Get(message, "auctionId")).0, client, message)
  {
  }

  /**
   * Once an auction has an interest entry, a client that cancelled its
   * interest no longer gets that auction's events, while every event about
   * an auction without an entry (or without a truthy "auctionId") is
   * broadcast to all streams.
   */
  lemma CancelledClientMissesEvents(interests: Interests, client: string, message: Object)
    requires client != "" && Truthy(Get(message, "auctionId")) && Get(message, "auctionId") in interests
    ensures !Wants(Cancel(interests, JStr(client), Get(message, "auctionId")).0, client, message)
  {
  }

  lemma UnfilteredEventsAreBroadcast(clients: set<string>, interests: Interests, message: Object)
    requires !Truthy(Get(message, "auctionId")) || Get(message, "auctionId") !in interests
    ensures Recipients(clients, interests, message) == clients
  {
  }

  /** The gateway's stream queues and interest table. */
  class Gateway {
    var clientQueues: Queues
    var auctionInterests: Interests

    constructor ()
      ensures clientQueues == map[] && auctionInterests == map[]
    {
      clientQueues := map[];
      auctionInterests := map[];
    }

    /** `registrar_interesse(data)`. */
    method RegisterInterest(data: Object) returns (code: int)
      modifies this`auctionInterests
      ensures (auctionInterests, code) == Register(old(auctionInterests), Get(data, "clientId"), Get(data, "auctionId"))
    {
      var clientId := Get(data, "clientId");
      var auctionId := Get(data, "auctionId");
      if !Truthy(clientId) || !Truthy(auctionId) {
        return 400;
      }
      ghost var before := auctionInterests;
      if auctionId !in auctionInterests {
        auctionInterests := auctionInterests[auctionId := {}];
      }
      assert auctionInterests[auctionId] == InterestedIn(before, auctionId);
      auctionInterests := auctionInterests[auctionId := auctionInterests[auctionId] + {clientId}];
      assert auctionInterests == before[auctionId := InterestedIn(before, auctionId) + {clientId}];
      code := 200;
    }

    /** `cancelar_interesse(data)`. */
    method CancelInterest(data: Object) returns (code: int)
      modifies this`auctionInterests
      ensures (auctionInterests, code) == Cancel(old(auctionInterests), Get(data, "clientId"), Get(data, "auctionId"))
    {
      var clientId := Get(data, "clientId");
      var auctionId := Get(data, "auctionId");
      if !Truthy(clientId) || !Truthy(auctionId) {
        return 400;
      }
      if auctionId in auctionInterests && clientId in auctionInterests[auctionId] {
        auctionInterests := auctionInterests[auctionId := auctionInterests[auctionId] - {clientId}];
      }
      code := 200;
    }

    /** A stream connects: the client id now maps to a fresh, empty queue, replacing any earlier one. */
    method Connect(clientId: string)
      modifies this`clientQueues
      ensures clientQueues == old(clientQueues)[clientId := []]
    {
      clientQueues := clientQueues[clientId := []];
    }

    /** A stream ends: `clientQueues.pop(client_id, None)`, a no-op when the entry is already gone. */
    method Disconnect(clientId: string)
      modifies this`clientQueues
      ensures clientQueues == old(clientQueues) - {clientId}
    {
      clientQueues := clientQueues - {clientId};
    }

    /** The broker `callback` for one event: walk the streams, putting the event on those that want it. */
    method Dispatch(routingKey: string, message: Object)
      modifies this`clientQueues
      ensures clientQueues ==
        Deliver(old(clientQueues), Recipients(old(clientQueues).Keys, auctionInterests, message), Event(routingKey, message))
    {
      var event := Event(routingKey, message);
      var auctionId := Get(message, "auctionId");
      ghost var queues := clientQueues;
      ghost var recipients := Recipients(queues.Keys, auctionInterests, message);
      var clients := ListKeys(clientQueues);
      ghost var done: set<string> := {};
      for i := 0 to |clients|
        invariant forall d :: d in done <==> d in clients[..i]
        invariant clientQueues == Deliver(queues, done * recipients, event)
      {
        var c := clients[i];
        assert clients[..i + 1] == clients[..i] + [c];
        DeliverStep(queues, done, recipients, c, event);
        done := done + {c};
        if Truthy(auctionId) && auctionId in auctionInterests {
          if JStr(c) !in auctionInterests[auctionId] {
            continue;
          }
        }
        clientQueues := clientQueues[c := clientQueues[c] + [event]];
      }
      assert done * recipients == recipients;
    }
  }
}
