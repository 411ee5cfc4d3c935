/**
 * The REST bid service: `place_bid` accepts a bid only on an active auction
 * and only above the auction's highest bid; the broker callbacks mark an
 * auction active when it starts and inactive when it ends, announcing the
 * winner if the auction received a bid.
 *
 * Broker publications are appended to `published`.
 */
module RestLance {
  import opened Wrappers
  import opened Json
  import opened BidTable

  /** The service's in-memory state: the `bids` table and the `activeAuctions` set. */
  datatype Book = Book(bids: Bids, active: set<Json>)

  /** How `place_bid` judges a bid. */
  datatype Verdict = Accepted | NotActive | NotHigher

  /** The JSON answer of `place_bid`: its status code, "status" and optional "reason". */
  datatype Response = Response(code: int, status: string, reason: Option<string>)

  /** A publication on the auction exchange. */
  datatype Publication =
    | BidNotice(routingKey: string, auctionId: Json, userId: Json, bidValue: int)   // "lance_validado" / "lance_invalidado"
    | WinnerNotice(auctionId: Json, winnerId: Json, bidValue: int)                 // "leilao_vencedor"

  /** What the service handles: a bid, an auction-started event, an auction-ended event. */
  datatype Event =
    | BidPlaced(auction: Json, user: Json, value: int)
    | AuctionStarted(id: Json)
    | AuctionEnded(id: Json)

  /**
   * The checks of `place_bid`, in order: the auction must be active, then the
   * bid must be strictly above the highest (0 when there is none).
   */
  function Judge(book: Book, auction: Json, value: int): (v: Verdict)
    ensures v == Accepted <==> auction in book.active && value > Highest(book.bids, auction)
    ensures v == NotActive <==> auction !in book.active
    ensures v == NotHigher <==> auction in book.active && value <= Highest(book.bids, auction)
  {
    if auction !in book.active then NotActive
    else if value <= Highest(book.bids, auction) then NotHigher
    else Accepted
  }

  /** The answer `place_bid` gives for a verdict. */
  function ResponseOf(v: Verdict): (r: Response)
    ensures r.code == 200 <==> v == Accepted
    ensures r.code != 200 ==> r.code == 400 && r.status == "rejected"
  {
    match v
    case Accepted => Response(200, "accepted", None)
    case NotActive => Response(400, "rejected", Some("Auction not active"))
    case NotHigher => Response(400, "rejected", Some("Bid not higher than leading bid"))
  }

  /** The routing key `place_bid` publishes the bid under. */
  function BidRoutingKey(v: Verdict): string
  {
    if v == Accepted then "lance_validado" else "lance_invalidado"
  }

  /** `bids.get(id)`, announced as the winner when the auction ends. */
  function Winner(book: Book, id: Json): (w: Option<Publication>)
    ensures w.Some? <==> id in book.bids
    ensures w.Some? ==> w.value == WinnerNotice(id, book.bids[id].user, book.bids[id].value)
  {
    if id in book.bids then Some(WinnerNotice(id, book.bids[id].user, book.bids[id].value)) else None
  }

  /**
   * The state after one event. A rejected bid changes nothing; an accepted
   * one stores `(user, value)` for its auction. Starting an auction adds it to
   * the active set (again: no effect); ending one removes it if present and
   * keeps its bid.
   */
  function Apply(book: Book, e: Event): (r: Book)
    ensures e.BidPlaced? && Judge(book, e.auction, e.value) != Accepted ==> r == book
    ensures e.BidPlaced? && Judge(book, e.auction, e.value) == Accepted ==>
      r == book.(bids := book.bids[e.auction := Bid(e.user, e.value)])
    ensures e.AuctionStarted? ==> r.bids == book.bids && r.active == book.active + {e.id}
    ensures e.AuctionEnded? ==> r.bids == book.bids && r.active == book.active - {e.id}
  {
    match e
    case BidPlaced(auction, user, value) =>
      if Judge(book, auction, value) == Accepted then book.(bids := book.bids[auction := Bid(user, value)]) else book
    case AuctionStarted(id) => book.(active := book.active + {id})
    case AuctionEnded(id) => book.(active := book.active - {id})
  }

  /** The state after a sequence of events, handled in order. */
  function Run(book: Book, events: seq<Event>): Book
    decreases |events|
  {
    if events == [] then book else Run(Apply(book, events[0]), events[1..])
  }

  /** Starting an auction twice is the same as starting it once. */
  lemma StartIsIdempotent(book: Book, id: Json)
    ensures Apply(Apply(book, AuctionStarted(id)), AuctionStarted(id)) == Apply(book, AuctionStarted(id))
  {
    var once := Apply(book, AuctionStarted(id));
    assert once.active + {id} == once.active;
  }

  /** One event never lowers or removes a stored bid. */
  lemma ApplyNoLower(book: Book, e: Event)
    ensures NoLower(book.bids, Apply(book, e).bids)
  {
    if e.BidPlaced? && Judge(book, e.auction, e.value) == Accepted {
      OutbidRaises(book.bids, e.auction, e.user, e.value);
    }
  }

  /**
   * The stored highest bid of every auction only rises: after any sequence
   * of events, no auction has lost its bid or had it lowered.
   */
  lemma {:induction false} HighestNeverDecreases(book: Book, events: seq<Event>)
    ensures NoLower(book.bids, Run(book, events).bids)
    decreases |events|
  {
    if events != [] {
      var next := Apply(book, events[0]);
      ApplyNoLower(book, events[0]);
      HighestNeverDecreases(next, events[1..]);
      NoLowerTransitive(book.bids, next.bids, Run(next, events[1..]).bids);
    }
  }

  /**
   * Once an auction has ended, every later bid on it is rejected as long as
   * no new start event names it again: the auction stays out of the active
   * set and its stored bid never changes.
   */
  lemma {:induction false} EndedStaysClosed(book: Book, id: Json, events: seq<Event>)
    requires id !in book.active
    requires forall i | 0 <= i < |events| :: events[i] != AuctionStarted(id)
    ensures id !in Run(book, events).active
    ensures (id in Run(book, events).bids) == (id in book.bids)
    ensures id in book.bids ==> Run(book, events).bids[id] == book.bids[id]
    ensures forall i | 0 <= i < |events| && events[i].BidPlaced? && events[i].auction == id ::
      Judge(Run(book, events[..i]), id, events[i].value) == NotActive
    decreases |events|
  {
    if events != [] {
      var next := Apply(book, events[0]);
      assert next.active <= book.active || events[0].AuctionStarted?;
      EndedStaysClosed(next, id, events[1..]);
      forall i | 0 <= i < |events| && events[i].BidPlaced? && events[i].auction == id
        ensures Judge(Run(book, events[..i]), id, events[i].value) == NotActive
      {
        if i > 0 {
          assert events[..i][1..] == events[1..][..i - 1];
          assert events[1..][i - 1] == events[i];
        }
      }
    }
  }

  /**
   * After an auction-ended event, every later bid on that auction is
   * answered "Auction not active" until a start event names it again, and
   * the bid that was stored when it ended stays the stored bid.
   */
  lemma BidsAfterEndRejected(book: Book, id: Json, events: seq<Event>)
    requires forall i | 0 <= i < |events| :: events[i] != AuctionStarted(id)
    ensures forall i | 0 <= i < |events| && events[i].BidPlaced? && events[i].auction == id ::
      ResponseOf(Judge(Run(Apply(book, AuctionEnded(id)), events[..i]), id, events[i].value))
        == Response(400, "rejected", Some("Auction not active"))
    ensures Winner(Run(Apply(book, AuctionEnded(id)), events), id) == Winner(book, id)
  {
    EndedStaysClosed(Apply(book, AuctionEnded(id)), id, events);
  }

  /** The bid service's module-level state and its publications. */
  class BidService {
    var bids: Bids
    var activeAuctions: set<Json>
    var published: seq<Publication>

    function State(): Book
      reads this
    {
      Book(bids, activeAuctions)
    }

    constructor ()
      ensures bids == map[] && activeAuctions == {} && published == []
    {
      bids := map[];
      activeAuctions := {};
      published := [];
    }

    /**
     * `place_bid(auction_id, user_id, bid_value)`: answers 200 and stores the
     * bid when the auction is active and the bid beats its highest; answers
     * 400 otherwise and stores nothing. Either way the bid is published, as
     * validated or invalidated.
     */
    method PlaceBid(auctionId: Json, userId: Json, bidValue: int) returns (response: Response)
      modifies this`bids, this`published
      ensures response == ResponseOf(Judge(old(State()), auctionId, bidValue))
      ensures State() == Apply(old(State()), BidPlaced(auctionId, userId, bidValue))
      ensures published == old(published) +
        [BidNotice(BidRoutingKey(Judge(old(State()), auctionId, bidValue)), auctionId, userId, bidValue)]
    {
      if auctionId !in activeAuctions {
        published := published + [BidNotice("lance_invalidado", auctionId, userId, bidValue)];
        return Response(400, "rejected", Some("Auction not active"));
      }
      var lastBidValue := if auctionId in bids then bids[auctionId].value else 0;
      if bidValue <= lastBidValue {
        published := published + [BidNotice("lance_invalidado", auctionId, userId, bidValue)];
        return Response(400, "rejected", Some("Bid not higher than leading bid"));
      }
      bids := bids[auctionId := Bid(userId, bidValue)];
      published := published + [BidNotice("lance_validado", auctionId, userId, bidValue)];
      response := Response(200, "accepted", None);
    }

    /** `auction_started_callback`: the auction now accepts bids. */
    method OnAuctionStarted(id: Json)
      modifies this`activeAuctions
      ensures State() == Apply(old(State()), AuctionStarted(id))
    {
      activeAuctions := activeAuctions + {id};
    }

    /**
     * `auction_ended_callback`: the auction stops accepting bids (an auction
     * that was not active is no error), its bid is kept, and the winner is
     * published if the auction received a bid.
     */
    method OnAuctionEnded(id: Json)
      modifies this`activeAuctions, this`published
      ensures State() == Apply(old(State()), AuctionEnded(id))
      ensures published == old(published) + Winner(old(State()), id).ToSeq()
    {
      if id in activeAuctions {
        activeAuctions := activeAuctions - {id};
      }
      var winnerInfo := if id in bids then Some(bids[id]) else None;
      if winnerInfo.Some? {
        published := published + [WinnerNotice(id, winnerInfo.value.user, winnerInfo.value.value)];
      }
    }
  }
}
