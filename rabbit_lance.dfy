/**
 * The RabbitMQ bid consumer: a signed bid is stored only when the bidder has
 * a public key on file, the signature verifies, and the bid beats the
 * auction's highest. This variant keeps no set of active auctions.
 *
 * The RSA/SHA-256 check `verify_signature(key_path, json.dumps(message),
 * signature)` is the parameter `verify`, an uninterpreted predicate.
 * Publications on the "leilao" exchange are appended to `published`.
 */
module RabbitLance {
  import opened Wrappers
  import opened Json
  import opened BidTable

  /** The signed part of a bid: `payload["message"]`. */
  datatype Message = Message(auctionId: Json, userId: Json, bidValue: int)

  /** One `basic_publish` of an accepted bid's message under the routing key "lance_lanzado". */
  datatype Publication = Publication(routingKey: string, message: Message)

  /** The signature check: key file path, signed message, hex signature. */
  type Verifier = (string, Message, string) -> bool

  /** `public_keys.get(user_id)`: the key file of a user named by a directory under "clientes". */
  function KeyPath(keys: map<string, string>, user: Json): (r: Option<string>)
    ensures r.Some? <==> user.JStr? && user.s in keys
    ensures r.Some? ==> r.value == keys[user.s]
  {
    match user
    case JStr(u) => if u in keys then Some(keys[u]) else None
    case _ => None
  }

  /** `pub_key_path and verify_signature(pub_key_path, msg_str, signature)`. */
  predicate Authentic(keys: map<string, string>, verify: Verifier, m: Message, signature: string)
  {
    match KeyPath(keys, m.userId)
    case None => false
    case Some(path) => path != "" && verify(path, m, signature)
  }

  /**
   * The bid table after one signed bid: unchanged unless the bid is authentic
   * and strictly above the auction's highest (0 when it has none), in which
   * case the auction's entry becomes `(user_id, bid_value)`.
   */
  function Receive(bids: Bids, keys: map<string, string>, verify: Verifier, m: Message, signature: string): (r: Bids)
    ensures !Authentic(keys, verify, m, signature) ==> r == bids
    ensures Authentic(keys, verify, m, signature) && m.bidValue <= Highest(bids, m.auctionId) ==> r == bids
    ensures Authentic(keys, verify, m, signature) && m.bidValue > Highest(bids, m.auctionId) ==>
      r == bids[m.auctionId := Bid(m.userId, m.bidValue)]
  {
    if Authentic(keys, verify, m, signature) && m.bidValue > Highest(bids, m.auctionId) then
      bids[m.auctionId := Bid(m.userId, m.bidValue)]
    else bids
  }

  /** The bid table after a sequence of signed bids, handled in order. */
  function ReceiveAll(bids: Bids, keys: map<string, string>, verify: Verifier, bidsIn: seq<(Message, string)>): Bids
    decreases |bidsIn|
  {
    if bidsIn == [] then bids
    else ReceiveAll(Receive(bids, keys, verify, bidsIn[0].0, bidsIn[0].1), keys, verify, bidsIn[1..])
  }

  /** The stored highest bid of every auction only rises, whatever signed bids arrive. */
  lemma {:induction false} HighestNeverDecreases(bids: Bids, keys: map<string, string>, verify: Verifier, bidsIn: seq<(Message, string)>)
    ensures NoLower(bids, ReceiveAll(bids, keys, verify, bidsIn))
    decreases |bidsIn|
  {
    if bidsIn != [] {
      var (m, sig) := bidsIn[0];
      var next := Receive(bids, keys, verify, m, sig);
      if next != bids {
        OutbidRaises(bids, m.auctionId, m.userId, m.bidValue);
      }
      HighestNeverDecreases(next, keys, verify, bidsIn[1..]);
      NoLowerTransitive(bids, next, ReceiveAll(next, keys, verify, bidsIn[1..]));
    }
  }

  /** Bids from users without a key on file never change the table, however many arrive. */
  lemma {:induction false} UnknownUsersChangeNothing(bids: Bids, keys: map<string, string>, verify: Verifier, bidsIn: seq<(Message, string)>)
    requires forall i | 0 <= i < |bidsIn| :: KeyPath(keys, bidsIn[i].0.userId).None?
    ensures ReceiveAll(bids, keys, verify, bidsIn) == bids
    decreases |bidsIn|
  {
    if bidsIn != [] {
      UnknownUsersChangeNothing(bids, keys, verify, bidsIn[1..]);
    }
  }

  /** The consumer's key directory, its bid table and its publications. */
  class BidConsumer {
    /** User name to public key file, read from the "clientes" directory at start-up. */
    const publicKeys: map<string, string>
    var bids: Bids
    var published: seq<Publication>

    constructor (publicKeys: map<string, string>)
      ensures this.publicKeys == publicKeys && bids == map[] && published == []
    {
      this.publicKeys := publicKeys;
      bids := map[];
      published := [];
    }

    /**
     * `callback` for one signed bid: an authentic bid above the highest is
     * stored and its message published; any other bid changes nothing and
     * publishes nothing.
     */
    method Callback(message: Message, signature: string, verify: Verifier)
      modifies this`bids, this`published
      ensures bids == Receive(old(bids), publicKeys, verify, message, signature)
      ensures published == old(published) + (if bids != old(bids) then [Publication("lance_lanzado", message)] else [])
    {
      var pubKeyPath := KeyPath(publicKeys, message.userId);
      if pubKeyPath.Some? && pubKeyPath.value != "" && verify(pubKeyPath.value, message, signature) {
        var lastBid := if message.auctionId in bids then bids[message.auctionId].value else 0;
        if message.bidValue > lastBid {
          bids := bids[message.auctionId := Bid(message.userId, message.bidValue)];
          published := published + [Publication("lance_lanzado", message)];
        }
      }
    }
  }
}
