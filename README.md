# Ricart–Agrawala peer and auction services, modelled in Dafny

This project models two parts of the repository.

**The mutual-exclusion peer** (`Projeto2-Pyro/peer.py`, class `Peer`). Each
peer keeps a Lamport clock. It asks every active peer for permission to enter
the critical section, then defers or grants the REQUESTs it receives under the
Ricart–Agrawala rule. The tie-break is the lexicographic order of
`(timestamp, name)` pairs. It drains its deferred REPLYs in FIFO order on
release, and it evicts peers that miss heartbeats or fail to reply. It also
reconciles its membership against the name server's directory. `MutexPeer.Peer`
is a class with the same fields, and every handler is one atomic method.
`request_cs` becomes two steps:

- `StartRequest` runs up to the wait for replies.
- `FinishRequest` makes the decision at the deadline.

The model abstracts the peer's environment in three ways:

- Outbound remote calls are appended to an `outbox` sequence.
- The release timer is a boolean.
- Wall-clock time is a `now` parameter.

Iteration over a dict is an enumeration of its keys in unspecified order (see
`Dicts.ListKeys`). The specification functions (`Bumped`, `MustDefer`,
`CallsTo`, `HeartbeatsTo`, `Reconcile`, `ReconcileSeen`) state what each
handler computes. The lemmas beside them prove the protocol's properties:

- Deferral is asymmetric between two requesters.
- Equal timestamps are broken by name.
- Deferred replies leave in FIFO order.
- Reconciliation is idempotent and equals the source's two passes.
- A heartbeat sweep never leaves a stale peer active.

**The auction services** (`Rest/` and `RabbitMQ/`):

- **Auction managers.** The lifecycle "nao iniciado" → "ativo" → "encerrado" is
  shared by both managers in `AuctionLifecycle`. `RestLeilao` adds request
  validation and the active-auction listing. `RabbitLeilao` adds the two fixed
  auctions and the text messages it publishes.
- **Bid services.** Both keep a per-auction highest-bid table (`BidTable`).
  - `RestLance` adds the active-auction set, the 200/400 answers and the winner
    announcement.
  - `RabbitLance` adds signature gating. Signature verification is an abstract
    predicate passed as a parameter.
- **Payment service** (`Payments`). It keeps a table of pending transactions. A
  webhook settles each pending transaction exactly once.
- **Gateways.**
  - `StreamGateway` models `Rest/api_gateway.py`. Payment events go only to
    their user and everything else is broadcast.
  - `InterestGateway` models `Rest/api_gateway2.py`. It keeps an interest table
    and filters events through it.
  - Both deliver into per-client stream queues (`Streams`).

Each service's state is a value with a pure step function, and lemmas are
proved over sequences of events. The class that holds the module-level state
has methods proved equal to those step functions.

Where the code and the intended protocol differ, the model follows the code:

- `request_cs` refuses only while the peer is in the critical section, not
  while it is merely requesting (`Projeto2-Pyro/peer.py:98`).
- The timeout path keeps `request_timestamp` and leaves the deferral queue
  alone (`Projeto2-Pyro/peer.py:131-138`).
- `heartbeat` records a time even for a peer that is not active
  (`Projeto2-Pyro/peer.py:247`).
- `receive_reply` records the sender whether or not a request is outstanding
  (`Projeto2-Pyro/peer.py:219`).
- `request_cs` holds the plain lock `cs_lock` from its start to its decision
  (`Projeto2-Pyro/peer.py:97-144`). `receive_request` needs the same lock
  before it decides (`Projeto2-Pyro/peer.py:178-183`), so in the source a
  REQUEST is never decided while the peer is requesting but not in the
  critical section. The `requesting` branch of `MustDefer` is therefore never
  taken, and `DeferIsAsymmetric` and `TieBreakByName` are properties of the
  rule, not of a run. Two peers that request at the same time block in each
  other's `receive_request` and their REQUEST calls hit the reply timeout.
  Each then evicts the other, and the blocked request is later dropped
  without a REPLY because its sender's heartbeat entry is gone. The model lets
  `ReceiveRequest` run between `StartRequest` and `FinishRequest`, which this
  lock rules out, so the model admits more interleavings than the source.

The second gateway filters on the message key `"auctionId"`
(`Rest/api_gateway2.py:150`). The gateway binds five routing keys
(`Rest/api_gateway2.py:125-131`). Their publishers, `Rest/ms_lance.py` and
`Rest/ms_pagamento.py`, name the auction `"auction_id"`. So as deployed the
filter never applies, and every event the gateway receives is broadcast. `InterestGateway.UnfilteredEventsAreBroadcast` states this case.

## Model

| member | source | states |
|---|---|---|
| MutexPeer.Bumped | Projeto2-Pyro/peer.py:65-70 | A local tick raises the clock by exactly one. A received timestamp sets the clock to `max(clock, ts) + 1`. The clock always ends strictly above its old value and above the received timestamp. |
| MutexPeer.Peer.BumpClock | Projeto2-Pyro/peer.py:65-70 | `bump_clock` moves the clock to `Bumped(old clock, remote_ts)`, returns the new value and keeps the peer's invariant. |
| MutexPeer.Peer.constructor | Projeto2-Pyro/peer.py:19-43 | A new peer has clock 0, no request, no timer, empty deferral queue, reply set and maps, and the given timing constants. |
| MutexPeer.Peer.StartRequest | Projeto2-Pyro/peer.py:96-118 | While in the critical section it refuses and changes nothing. Otherwise it ticks the clock, sets the request timestamp to the new clock, sets `requesting`, empties the reply set, and appends one REQUEST with that timestamp per active peer with a known address. |
| MutexPeer.Peer.SendRequests | Projeto2-Pyro/peer.py:109-118 | The broadcast loop sends exactly `CallsTo(Request(ts), targets, active_peers)`: one call per target with a known address, in target order. |
| MutexPeer.Known | Projeto2-Pyro/peer.py:110-111 | A peer can be called only when `active_peers.get(p)` is truthy: it is listed with a non-empty address. |
| MutexPeer.CallsTo | Projeto2-Pyro/peer.py:109-118 | The calls one walk over the names sends: one per name with a known address, through that address, in walk order, and never more calls than names. |
| MutexPeer.CallsToKnown | Projeto2-Pyro/peer.py:109-112 | Every REQUEST or REPLY the peer sends goes to a listed peer with a known address, through that address. |
| MutexPeer.Peer.FinishRequest | Projeto2-Pyro/peer.py:120-144 | The request is granted iff every active peer has replied. Granting enters the critical section and arms the timer. Otherwise exactly the peers that did not reply leave both maps and `requesting` is cleared, while the timestamp, the deferral queue and the outbox are untouched. |
| MutexPeer.Peer.EvictAll | Projeto2-Pyro/peer.py:133-136 | Removes exactly the given peers from `active_peers` and `last_heartbeat`. |
| MutexPeer.Peer.Release | Projeto2-Pyro/peer.py:146-167 | Outside the critical section it does nothing. Otherwise it clears `in_cs`, `requesting`, the timestamp and the timer, and empties the deferral queue. It emits REPLYs in queue order to exactly the queued peers that still have a known address. |
| MutexPeer.Peer.Drain | Projeto2-Pyro/peer.py:158-167 | The drain loop empties the deferral queue and sends exactly `CallsTo(Reply, queue, active_peers)`: one REPLY per queued peer with a known address, front to back. |
| MutexPeer.DrainIsFifo | Projeto2-Pyro/peer.py:158-167 | If X was deferred before Y and both are still known at release, X's REPLY is sent strictly before Y's. |
| MutexPeer.Peer.AutoRelease | Projeto2-Pyro/peer.py:169-171 | The timer's expiry has exactly the effect of `release_cs`. |
| MutexPeer.Peer.ReceiveRequest | Projeto2-Pyro/peer.py:173-213 | Merges the clock with the sender's timestamp. The sender is appended to the deferral queue iff `MustDefer` holds. A deferral made in the critical section sends a one-way notice. A request that is not deferred gets a REPLY unless the sender's heartbeat is stale or its address unknown. It always acknowledges and never changes membership. |
| MutexPeer.DeferIsAsymmetric | Projeto2-Pyro/peer.py:179-183 | Of two distinct peers that are both requesting and not in the critical section, the defer rule defers the other's REQUEST at exactly one of them. |
| MutexPeer.TieBreakByName | Projeto2-Pyro/peer.py:182 | With equal timestamps the defer rule holds the larger name's REQUEST at the peer with the smaller name, and does not hold the smaller name's REQUEST at the other. |
| MutexPeer.MustDefer | Projeto2-Pyro/peer.py:177-183 | The defer rule: a REQUEST is held while the peer is in the critical section, or while it is requesting and the incoming `(timestamp, name)` is not below its own `(request_timestamp, name)`. |
| LexOrder.ClaimOrderTotal | Projeto2-Pyro/peer.py:182 | The `(timestamp, name)` comparison is a strict total order on distinct claims: exactly one of two distinct claims precedes the other. |
| LexOrder.ClaimLessTransitive | Projeto2-Pyro/peer.py:182 | The `(timestamp, name)` comparison is transitive. |
| LexOrder.LessTotal | Projeto2-Pyro/peer.py:182 | Python's string order is total on distinct strings. |
| LexOrder.Less | Projeto2-Pyro/peer.py:182 | Python's `<` on strings: code points compared from the left, and a proper prefix comes before its extensions. |
| LexOrder.ClaimLess | Projeto2-Pyro/peer.py:182 | Python's `<` on `(timestamp, name)` tuples: timestamps first, names break a tie. |
| MutexPeer.Peer.ReceiveReply | Projeto2-Pyro/peer.py:215-220 | Ticks the clock once and adds the sender to the reply set whatever the critical-section state; nothing else changes. |
| MutexPeer.Peer.ReceiveInCSNotification | Projeto2-Pyro/peer.py:222-224 | The notification is only acknowledged. |
| MutexPeer.Peer.SendHeartbeat | Projeto2-Pyro/peer.py:229-244 | Evicts from both maps exactly the active peers not heard from for longer than the timeout, heartbeats every other active peer, and leaves no stale peer active. |
| MutexPeer.Peer.HeartbeatSweep | Projeto2-Pyro/peer.py:232-244 | The sweep loop removes exactly the stale listed peers and sends exactly `HeartbeatsTo` the listed peers. |
| MutexPeer.Peer.SweepOne | Projeto2-Pyro/peer.py:233-244 | One iteration evicts the peer from both maps if it is stale, and otherwise sends it a heartbeat at its current address. |
| MutexPeer.HeartbeatsToFresh | Projeto2-Pyro/peer.py:233-241 | Every heartbeat sent goes to a listed peer that is not stale, at its current address. |
| MutexPeer.Stale | Projeto2-Pyro/peer.py:236-237 | A peer is stale when more than `hb_timeout` has passed since its last heartbeat, counting from 0 when it has none. |
| MutexPeer.StalePeers | Projeto2-Pyro/peer.py:235-240 | The peers one sweep evicts: exactly the active peers that are stale. |
| MutexPeer.HeartbeatsTo | Projeto2-Pyro/peer.py:235-244 | The heartbeats one sweep sends: one to each walked peer that is not stale, at its address, in walk order, and never more than the walked peers. |
| MutexPeer.Peer.Heartbeat | Projeto2-Pyro/peer.py:246-249 | Records `now` as the sender's last heartbeat, even for an unknown sender, and changes nothing else. |
| MutexPeer.Reconcile | Projeto2-Pyro/peer.py:72-88 | After reconciliation only listed names remain active. Every listed name other than the peer itself and the name server is active. Names already active keep their address, and newly listed names take the directory's address. |
| MutexPeer.ReconcileSeen | Projeto2-Pyro/peer.py:76-87 | Newly listed peers get heartbeat time `now`, unlisted active peers lose their entry, and every other entry is kept. |
| MutexPeer.ReconcileIdempotent | Projeto2-Pyro/peer.py:72-88 | Reconciling twice against the same directory is the same as reconciling once. |
| MutexPeer.ReconcileInTwoPasses | Projeto2-Pyro/peer.py:76-87 | The source's two loops, adding the new names and then dropping the unlisted ones, compute `Reconcile`. |
| MutexPeer.ReconcileSeenInTwoPasses | Projeto2-Pyro/peer.py:76-87 | The heartbeat map after both loops is `ReconcileSeen`. |
| MutexPeer.ReconcileKeepsSeen | Projeto2-Pyro/peer.py:72-88 | Reconciliation keeps a heartbeat entry for every active peer. |
| MutexPeer.ReconcileKeys | Projeto2-Pyro/peer.py:76-87 | When neither the peer itself nor the name server is active, the active peers after reconciliation are exactly the listed names other than those two. |
| MutexPeer.Peer.UpdatePeersFromNameServer | Projeto2-Pyro/peer.py:72-91 | A failed directory query returns false and changes nothing. Otherwise it returns true, the active peers become exactly the listed names minus the peer itself and "Pyro.NameServer", and both maps equal `Reconcile` and `ReconcileSeen` of their old values. |
| MutexPeer.Peer.ReconcileWith | Projeto2-Pyro/peer.py:76-87 | The two loops together leave `active_peers` equal to `Reconcile` and `last_heartbeat` equal to `ReconcileSeen` of their old values. |
| MutexPeer.Peer.AddListed | Projeto2-Pyro/peer.py:76-82 | The first loop adds each newly listed name with its directory address and heartbeat time `now`, skipping the peer itself, the name server and names already active. |
| MutexPeer.Peer.DropUnlisted | Projeto2-Pyro/peer.py:83-87 | The second loop removes every enumerated name missing from the directory from both maps. |
| MutexPeer.Peer.DropAllUnlisted | Projeto2-Pyro/peer.py:83-87 | Walking the active peers removes exactly the active peers missing from the directory from both maps. |
| MutexPeer.Peer.ListActivePeers | Projeto2-Pyro/peer.py:271-273 | Returns the current name-to-address map. |
| MutexPeer.Peer.Info | Projeto2-Pyro/peer.py:275-282 | Returns the peer's name, clock and critical-section flag, and exactly its active peer names. |
| Dicts.ListKeys | Projeto2-Pyro/peer.py:105 | Listing a dict's keys yields each key exactly once. |
| AuctionLifecycle.ChangeAt | Rest/ms_leilao.py:25-43 | A pass opens an auction iff it is "nao iniciado" and the clock has reached its start time. It closes one iff it is "ativo" and the clock has reached its end time. |
| AuctionLifecycle.Advanced | Rest/ms_leilao.py:25-43 | One pass never moves a status backwards and moves it at most one step. "encerrado" stays "encerrado". |
| AuctionLifecycle.PassesAreMonotone | Rest/ms_leilao.py:18-48 | Over any number of passes the status never moves backwards and advances at most one step per pass. |
| AuctionLifecycle.ClosedIsTerminal | Rest/ms_leilao.py:39-43 | A closed auction stays closed whatever passes follow. |
| AuctionLifecycle.NotOpenedBeforeStart | RabbitMQ/ms_leilao.py:35 | No pass before the start time opens an auction. |
| AuctionLifecycle.TwoPassesToClose | RabbitMQ/ms_leilao.py:35-51 | Even once both times have passed, a new auction needs two passes to close: the `elif` opens it in the first and closes it in the second. |
| RestLeilao.ToInt | Rest/ms_leilao.py:63-64 | `int()` returns an integer unchanged, turns `True`/`False` into 1/0, converts a string as `Parse` does, and fails on null. |
| RestLeilao.ToIntShow | Rest/ms_leilao.py:63-64 | A time sent as the decimal text of an integer converts back to that integer. |
| Decimal.Parse | Rest/ms_leilao.py:63-64 | `int()` on ASCII text succeeds iff the text is an optional sign followed by digits, and then gives the signed value of the digits. |
| Decimal.Show | RabbitMQ/ms_leilao.py:39 | The decimal text of an integer: digits only for a non-negative number, a minus sign followed by digits for a negative one. |
| Decimal.ParseShow | RabbitMQ/ms_leilao.py:39 | Reading back the decimal text of an integer gives the integer. |
| Decimal.ShowInjective | RabbitMQ/ms_leilao.py:39 | Distinct integers have distinct decimal texts. |
| RestLeilao.NewAuction | Rest/ms_leilao.py:53-66 | A missing body, an empty body or a missing key gives 400 "Missing data". Otherwise a failed `int()` fails the request. Otherwise the new auction has the body's id and description, the converted times and status "nao iniciado". |
| RestLeilao.Incomplete | Rest/ms_leilao.py:57 | The 400 condition: no body, an empty body, or one of "id", "description", "start_time", "end_time" missing. |
| RestLeilao.AuctionManager.CreateAuction | Rest/ms_leilao.py:52-72 | A valid body appends the new auction and answers 201 with it. A 400 or a failed conversion stores nothing. |
| RestLeilao.Step | Rest/ms_leilao.py:25-43 | One pass moves an auction to its `Advanced` status. Opening publishes id, description and end time. Closing publishes the id. A publication happens iff the status changes. |
| RestLeilao.AuctionManager.ManagePass | Rest/ms_leilao.py:18-46 | A pass applies `Step` to every auction in list order, keeps the list's length, and publishes `Notices` of the old list. |
| RestLeilao.AuctionManager.Manage | Rest/ms_leilao.py:25-43 | The loop body replaces the auction at one position by its `Step` and publishes that step's notice, if any. |
| RestLeilao.QuietPass | Rest/ms_leilao.py:22-43 | A pass in which no auction changes publishes nothing. |
| RestLeilao.NoticesOnePerAuction | Rest/ms_leilao.py:22-43 | A pass publishes exactly as many notices as there are auctions it moves: one for each, none for the others. |
| RestLeilao.ActiveOnly | Rest/ms_leilao.py:80 | The listing contains exactly the stored auctions with status "ativo". |
| RestLeilao.ActiveOnlyAppend | Rest/ms_leilao.py:80 | The listing keeps stored order: filtering a concatenation is the concatenation of the filtered parts. |
| RestLeilao.AuctionManager.GetActiveAuctions | Rest/ms_leilao.py:76-82 | Answers 200 with `ActiveOnly` of the stored auctions. |
| RabbitLeilao.Step | RabbitMQ/ms_leilao.py:33-53 | One iteration moves an auction to its `Advanced` status. Opening publishes the ID/Description/END text on "leilao_iniciado". Closing publishes "ID:" and the id on "leilao_finalizado". A publication happens iff the status changes. |
| RabbitLeilao.StartedMessage | RabbitMQ/ms_leilao.py:39 | The opening text: the id, the description and the end time after the labels "\n ID:", "\n Description:" and "\n END:". |
| RabbitLeilao.EndedMessage | RabbitMQ/ms_leilao.py:49 | The closing text: "ID:" followed by the id. |
| RabbitLeilao.EndTimeReadBack | RabbitMQ/ms_leilao.py:39 | The text after the last `:` of the opening message parses back to the auction's end time, whatever colons its id and description hold. |
| RabbitLeilao.LeilaoManager.constructor | RabbitMQ/ms_leilao.py:9-26 | The manager starts with auction "1" ("Notebook", start +10 s, end +30 s) and auction "2" ("Notebook2", start +15 s, end +45 s), both "nao iniciado". |
| RabbitLeilao.LeilaoManager.Pass | RabbitMQ/ms_leilao.py:30-55 | One loop iteration applies `Step` to each auction in order, leaving every other auction's status untouched, and publishes `Publications` of the old list. |
| RabbitLeilao.LeilaoManager.Visit | RabbitMQ/ms_leilao.py:35-53 | The loop body replaces the auction at one position by its `Step` and publishes that step's message, if any. |
| RabbitLeilao.FirstOpening | RabbitMQ/ms_leilao.py:9-41 | Ten seconds after start-up, a pass opens auction "1", leaves "2" waiting, and publishes exactly one opening message. |
| BidTable.Highest | Rest/ms_lance.py:125 | The value to beat is the stored bid's value, or 0 for an auction without bids. |
| BidTable.OutbidRaises | Rest/ms_lance.py:124-134 | Storing a bid above the highest raises that auction's highest and leaves every other auction's highest as it was. |
| RestLance.Judge | Rest/ms_lance.py:114-131 | A bid is accepted iff its auction is active and its value is strictly above the highest. It is "not active" iff the auction is not active, and "not higher" iff the auction is active but the value does not beat the highest. |
| RestLance.ResponseOf | Rest/ms_lance.py:117-139 | The answer is 200 iff the bid is accepted. Every rejection is 400 "rejected". |
| RestLance.BidRoutingKey | Rest/ms_lance.py:118-138 | An accepted bid is published under "lance_validado" and every rejected one under "lance_invalidado". |
| RestLance.Winner | Rest/ms_lance.py:67-82 | A winner is announced iff the auction has a stored bid, and it carries that bid's user and value. |
| RestLance.Apply | Rest/ms_lance.py:45-139 | A rejected bid changes nothing. An accepted bid stores `(user, value)` for its auction. A start event adds the auction to the active set. An end event removes it if present and keeps its bid. |
| RestLance.StartIsIdempotent | Rest/ms_lance.py:50-51 | Starting an auction twice has the effect of starting it once. |
| RestLance.HighestNeverDecreases | Rest/ms_lance.py:124-134 | Over any sequence of bids and auction events, no auction's stored bid is ever removed or lowered. |
| RestLance.EndedStaysClosed | Rest/ms_lance.py:61-64 | An inactive auction stays inactive, with its stored bid unchanged, until a start event names it. Every bid on it meanwhile is judged "not active". |
| RestLance.BidsAfterEndRejected | Rest/ms_lance.py:56-122 | After an end event, every bid on that auction is answered 400 "Auction not active" until a start event names it again, and the announced winner does not change. |
| RestLance.BidService.PlaceBid | Rest/ms_lance.py:97-139 | Answers `ResponseOf(Judge(...))`, updates the state as `Apply` does, and publishes the bid as "lance_validado" if accepted and "lance_invalidado" otherwise. |
| RestLance.BidService.OnAuctionStarted | Rest/ms_lance.py:45-53 | The auction joins the active set and the bid table is unchanged. |
| RestLance.BidService.OnAuctionEnded | Rest/ms_lance.py:56-86 | The auction leaves the active set, with no error if it was absent. Its bid is kept, and the winner is published iff a bid exists. |
| RestLance.BidService.constructor | Rest/ms_lance.py:13-16 | The service starts with no bids, no active auctions and no publications. |
| RabbitLance.KeyPath | RabbitMQ/ms_lance.py:12-13 | A user has a key file iff its id is a string naming a client directory, and then it is that user's key file. |
| RabbitLance.Authentic | RabbitMQ/ms_lance.py:47-50 | A bid is authentic iff its user has a non-empty key path and the signature verifies against it. |
| RabbitLance.Receive | RabbitMQ/ms_lance.py:48-63 | A bid without a key or a valid signature leaves the table unchanged. An authentic bid is stored iff it is strictly above the highest, with 0 when there is none. |
| RabbitLance.HighestNeverDecreases | RabbitMQ/ms_lance.py:50-59 | Over any sequence of signed bids, no auction's stored bid is ever removed or lowered. |
| RabbitLance.UnknownUsersChangeNothing | RabbitMQ/ms_lance.py:48-50 | Bids from users without a key on file never change the table, however many arrive. |
| RabbitLance.BidConsumer.constructor | RabbitMQ/ms_lance.py:12-19 | The consumer starts with the given key directory, no bids and no publications. |
| RabbitLance.BidConsumer.Callback | RabbitMQ/ms_lance.py:38-63 | The table becomes `Receive` of the old table. The bid's message is published on "lance_lanzado" iff the table changed. |
| Payments.Lookup | Rest/ms_pagamento.py:94 | A webhook's transaction id finds an entry iff it is a string that is pending. |
| Payments.Webhook | Rest/ms_pagamento.py:85-110 | An unknown id answers 404, publishes nothing and changes nothing. A pending id is removed, its stored auction and user are published with the status, and the answer is 200. |
| Payments.SettledOnce | Rest/ms_pagamento.py:94-110 | A second webhook for the same id answers 404 and publishes nothing. |
| Payments.WinnerThenWebhook | Rest/ms_pagamento.py:44-107 | A winner's fresh transaction is settled by the webhook for its id. The answer is 200, the status is published for that auction and user, and the table returns to what it was before the winner. |
| Payments.PaymentService.constructor | Rest/ms_pagamento.py:23 | The service starts with no pending transactions and no publications. |
| Payments.PaymentService.OnWinner | Rest/ms_pagamento.py:35-79 | The winner's transaction is recorded under the fresh id whether or not the payment system answers. The link is published iff one was obtained. |
| Payments.PaymentService.PaymentWebhook | Rest/ms_pagamento.py:85-110 | The answer, the table and the publications are exactly those `Webhook` gives. |
| Streams.Deliver | Rest/api_gateway.py:115-129 | The event is appended to the queue of every recipient, every other queue is unchanged, and no queue appears or disappears. |
| Streams.DeliverAppendsOnly | Rest/api_gateway.py:115-126 | A delivery only appends the delivered event, and only to a recipient's queue. |
| StreamGateway.Recipients | Rest/api_gateway.py:120-129 | A payment event goes to at most one client: its "user_id", if that client is connected. Every other event goes to every connected client. |
| StreamGateway.PaymentEventsArePrivate | Rest/api_gateway.py:121-126 | A payment event never reaches a client other than the user it names. |
| StreamGateway.Gateway.constructor | Rest/api_gateway.py:18 | The gateway starts with no streams. |
| StreamGateway.Gateway.Connect | Rest/api_gateway.py:67-70 | A stream connection maps the client to a fresh empty queue, replacing any earlier one. |
| StreamGateway.Gateway.Disconnect | Rest/api_gateway.py:82-85 | The client's entry is removed. The deletion fails iff there was no entry. |
| StreamGateway.Gateway.Dispatch | Rest/api_gateway.py:109-129 | The queues become `Deliver` of the old queues to `Recipients`, with event `{"type": routing key, "data": message}`. |
| StreamGateway.Gateway.Broadcast | Rest/api_gateway.py:127-129 | A non-payment event is appended to every connected client's queue and to nothing else. |
| InterestGateway.Register | Rest/api_gateway2.py:62-77 | A missing or falsy clientId or auctionId answers 400 and changes nothing. Otherwise the client joins the auction's set, which is created if needed, every other entry is unchanged, and the answer is 200. |
| InterestGateway.Cancel | Rest/api_gateway2.py:80-94 | A missing or falsy id answers 400 and changes nothing. Otherwise the client leaves the auction's set if present, the possibly empty set is kept, and the answer is 200. |
| InterestGateway.RegisterIsIdempotent | Rest/api_gateway2.py:71-74 | Registering twice is the same as registering once. |
| InterestGateway.CancelUndoesRegister | Rest/api_gateway2.py:62-94 | Cancelling right after a fresh registration gives the auction back the interested set it had, or an empty one if it had no entry. |
| InterestGateway.Recipients | Rest/api_gateway2.py:150-158 | A connected client gets the event iff it is not excluded by the auction's interest entry. |
| InterestGateway.Wants | Rest/api_gateway2.py:150-157 | A stream gets an event unless the event's "auctionId" is truthy, has an interest entry, and the client is not in it. |
| InterestGateway.RegisteredClientGetsEvents | Rest/api_gateway2.py:150-158 | A client registered for an auction gets that auction's events. |
| InterestGateway.CancelledClientMissesEvents | Rest/api_gateway2.py:150-158 | Once an auction has an interest entry, a client that cancelled its interest no longer gets the auction's events. |
| InterestGateway.UnfilteredEventsAreBroadcast | Rest/api_gateway2.py:150-158 | An event without a truthy "auctionId", or about an auction with no entry, goes to every connected client. |
| InterestGateway.Gateway.constructor | Rest/api_gateway2.py:14-19 | The gateway starts with no streams and no interests. |
| InterestGateway.Gateway.RegisterInterest | Rest/api_gateway2.py:62-77 | The answer and the interest table are exactly those `Register` gives for the body's ids. |
| InterestGateway.Gateway.CancelInterest | Rest/api_gateway2.py:80-94 | The answer and the interest table are exactly those `Cancel` gives for the body's ids. |
| InterestGateway.Gateway.Connect | Rest/api_gateway2.py:99-102 | A stream connection maps the client to a fresh empty queue, replacing any earlier one. |
| InterestGateway.Gateway.Disconnect | Rest/api_gateway2.py:112-114 | The client's entry is removed, and it is a no-op when the entry is already gone. |
| InterestGateway.Gateway.Dispatch | Rest/api_gateway2.py:139-158 | The queues become `Deliver` of the old queues to `Recipients`, with event `{"type": routing key, "data": message}`. |

## Left out

- Pyro5 transport is not modelled: proxies, `_pyroTimeout`, `_pyroOneway` and the name server object. Outbound calls are recorded in `outbox` whether or not the remote call would succeed, because a failed call is only logged and changes no state. The directory listing is an input map, or None when the query raises.
- Threads, locks and timers are not modelled: `threading.Lock`, `threading.Timer`, `_heartbeat_thread`, `_start_background_threads` and `shutdown`. Each handler is one atomic step. The release timer is the boolean `csTimer`, and its firing is the call `AutoRelease`.
- The 0.05 s polling loop of `request_cs` is one decide step (`FinishRequest`), which takes the reply set seen at the deadline. Replies that arrive during the wait are separate `ReceiveReply` steps.
- Global mutual exclusion across peers is not stated, because it depends on message delivery between processes and not on one peer's code.
- Wall-clock time (`time.time()`, `time.sleep`) is a `now` parameter. One reconciliation stamps every newly discovered peer with the same `now`, where `Projeto2-Pyro/peer.py:82` reads the clock once per name. The per-second loops of both auction managers are single passes at a given `now`.
- Logging, `print` and the ANSI colour codes have no effect on state and are left out.
- MutexPeer.Peer.StartRequest: the REQUEST order is any enumeration of the active peers, not the dict's insertion order, because Python's dict order is not modelled.
- MutexPeer.Peer.SendHeartbeat: the heartbeat order is any enumeration of the active peers, not the dict's insertion order.
- MutexPeer.Peer.Info: the active peer names are returned as a set, not a list in insertion order.
- StreamGateway.Gateway.Dispatch: a broadcast visits the streams in any order, not insertion order. The resulting queues are the same either way.
- InterestGateway.Gateway.Dispatch: a broadcast visits the streams in any order, not insertion order. The resulting queues are the same either way.
- A stream's queue is the sequence of events put on it. Consumption by the SSE generator (`queue.get`, the `None` sentinel, `yield`) is not modelled.
- In both gateways, a reconnecting client replaces its queue, and the old stream's disconnect then removes the new queue. The model shows this because `Connect` and `Disconnect` work on the client id alone.
- The gateways' proxy routes (`create_auction`, `get_active_auctions`, `place_bid` forwarded over HTTP) only forward requests to other services and are left out.
- Flask and pika plumbing is not modelled: request decoding, `jsonify`, queue declarations, bindings and consumers. Handlers take decoded fields, and publications are appended to a `published` sequence.
- A request or message body that makes the handler raise is left out, except where `create_auction` handles it. Examples are a missing key in `place_bid`, in a broker callback or in `payment_webhook`, and a None body. In Flask the request becomes a 500; in a pika callback it stops the consumer.
- Bid values are integers. Float bids and float timestamps are not modelled, and neither are comparisons that raise on non-numeric values.
- JSON ids are modelled as `Json` values with Python truthiness. Python's equality of `1`, `1.0` and `True` as dict keys is not modelled, so those count as distinct ids here.
- RestLeilao.ToInt: `int()` on a string accepts an optional sign and ASCII decimal digits. Python also accepts surrounding whitespace, digit-group underscores and non-ASCII Unicode decimal digits (`int("١٢") == 12`). For such a time the model answers `BadTime` where the source creates the auction. Floats (truncated by `int()`) are not modelled.
- `manage_auctions` walks the list without holding `auctionLock`, so it can race with `create_auction`. Concurrency is not modelled.
- RestLeilao.Step: a failing `basic_publish` is not modelled. The `try`/`except` around each auction (`Rest/ms_leilao.py:23-46`) catches it after the status was already set, so in the source such an auction changes status with no notice. The model always publishes when the status changes.
- `verify_signature` (RSA PKCS#1 v1.5 over SHA-256, reading the key file) is the abstract parameter `verify`. The serialisation `json.dumps(message)` is folded into it.
- The payment service's `uuid.uuid4()` transaction id is a parameter. The outcome of the payment-link HTTP request is an `Option` parameter, and the request body it sends is not modelled.
- `RabbitMQ/ms_lance.py` reads its key directory from the file system at start-up. Here the directory is the constructor's map.
