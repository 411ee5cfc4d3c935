/**
 * The table both bid services keep: for each auction id, the highest bid
 * accepted so far as `(user_id, bid_value)`.
 */
module BidTable {
  import opened Json

  /** A stored bid: `(user_id, bid_value)`. */
  datatype Bid = Bid(user: Json, value: int)

  type Bids = map<Json, Bid>

  /** `bids.get(auction, (None, 0))[1]`: the value to beat, 0 for an auction without bids. */
  function Highest(bids: Bids, auction: Json): (v: int)
    ensures auction in bids ==> v == bids[auction].value
    ensures auction !in bids ==> v == 0
  {
    if auction in bids then bids[auction].value else 0
  }

  /** No auction lost its bid or had it lowered between `before` and `after`. */
  ghost predicate NoLower(before: Bids, after: Bids)
  {
    forall a | a in before :: a in after && after[a].value >= before[a].value
  }

  lemma NoLowerTransitive(b0: Bids, b1: Bids, b2: Bids)
    requires NoLower(b0, b1) && NoLower(b1, b2)
    ensures NoLower(b0, b2)
  {
  }

  /** Storing a bid that beats the auction's highest raises that auction and leaves the others alone. */
  lemma OutbidRaises(bids: Bids, auction: Json, user: Json, value: int)
    requires value > Highest(bids, auction)
    ensures NoLower(bids, bids[auction := Bid(user, value)])
    ensures Highest(bids[auction := Bid(user, value)], auction) > Highest(bids, auction)
    ensures forall a | a != auction :: Highest(bids[auction := Bid(user, value)], a) == Highest(bids, a)
  {
  }
}
