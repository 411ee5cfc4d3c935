/**
 * The REST auction manager: `create_auction` validates a request body and
 * appends a new auction, a `manage_auctions` pass walks the auction list
 * opening and closing auctions as the clock passes their times, and
 * `get_active_auctions` lists the open ones.
 *
 * Broker publications are appended to `published`; the clock is the `now`
 * parameter (`int(time.time())`).
 */
module RestLeilao {
  import opened Wrappers
  import opened Json
  import opened Decimal
  import opened AuctionLifecycle

  /** One stored auction. `id` and `description` are whatever JSON the creator sent. */
  datatype Auction = Auction(id: Json, description: Json, startTime: int, endTime: int, status: Status)

  /**
   * A publication on the auction exchange: "leilao_iniciado" with the id,
   * description and end time, or "leilao_finalizado" with the id.
   */
  datatype Notice =
    | AuctionStarted(id: Json, description: Json, endTime: int)
    | AuctionEnded(id: Json)

  /** The outcome of `create_auction`. */
  datatype Created =
    | Created(auction: Auction)   // 201 with the new auction
    | MissingData                 // 400 "Missing data"
    | BadTime                     // `int(...)` raised: the request fails and nothing is stored

  /** The HTTP status code of a `create_auction` outcome. */
  function CreateCode(c: Created): int
  {
    match c
    case Created(_) => 201
    case MissingData => 400
    case BadTime => 500
  }

  /** The keys `create_auction` requires. */
  const RequiredKeys: seq<string> := ["id", "description", "start_time", "end_time"]

  /** Python's `int(x)` on a decoded JSON scalar; None where it raises. */
  function ToInt(j: Json): (r: Option<int>)
    ensures j.JInt? ==> r == Some(j.i)
    ensures j.JNull? ==> r == None
    ensures j.JBool? ==> r == Some(if j.b then 1 else 0)
    ensures j.JStr? ==> r == Parse(j.s)
  {
    match j
    case JNull => None
    case JBool(b) => Some(if b then 1 else 0)
    case JInt(i) => Some(i)
    case JStr(s) => Parse(s)
  }

  /** A time sent as the text `str(n)` converts back to `n`. */
  lemma ToIntShow(n: int)
    ensures ToInt(JStr(Show(n))) == Some(n)
  {
    ParseShow(n);
  }

  /** `not data or not all(p in data for p in [...])`. */
  predicate Incomplete(body: Option<Object>)
  {
    body.None? || body.value == map[] || exists k | k in RequiredKeys :: k !in body.value
  }

  /**
   * The validation and construction of `create_auction`: a missing body or a
   * missing key is a 400; otherwise the times must convert with `int()`,
   * and the new auction carries the body's id and description, the converted
   * times and the status "nao iniciado".
   */
  function NewAuction(body: Option<Object>): (r: Created)
    ensures r.MissingData? <==> Incomplete(body)
    ensures r.Created? ==>
      && body.Some?
      && r.auction.id == body.value["id"] && r.auction.description == body.value["description"]
      && ToInt(body.value["start_time"]) == Some(r.auction.startTime)
      && ToInt(body.value["end_time"]) == Some(r.auction.endTime)
      && r.auction.status == NotStarted
    ensures r.BadTime? <==>
      !Incomplete(body) && (ToInt(body.value["start_time"]).None? || ToInt(body.value["end_time"]).None?)
  {
    if Incomplete(body) then MissingData
    else
      var data := body.value;
      assert RequiredKeys[0] in RequiredKeys && RequiredKeys[1] in RequiredKeys;
      assert RequiredKeys[2] in RequiredKeys && RequiredKeys[3] in RequiredKeys;
      match (ToInt(data["start_time"]), ToInt(data["end_time"]))
      case (Some(s), Some(e)) => Created(Auction(data["id"], data["description"], s, e, NotStarted))
      case _ => BadTime
  }

  /** One manager pass on one auction at `now`: its new status and what it publishes. */
  function Step(a: Auction, now: int): (r: (Auction, Option<Notice>))
    ensures r.0 == a.(status := Advanced(a.status, a.startTime, a.endTime, now))
    ensures r.1.Some? <==> r.0.status != a.status
    ensures r.1.Some? && r.1.value.AuctionStarted? ==>
      r.1.value == AuctionStarted(a.id, a.description, a.endTime) && r.0.status == Active
    ensures r.1.Some? && r.1.value.AuctionEnded? ==> r.1.value == AuctionEnded(a.id) && r.0.status == Closed
  {
    match ChangeAt(a.status, a.startTime, a.endTime, now)
    case None => (a, None)
    case Some(Open) => (a.(status := Active), Some(AuctionStarted(a.id, a.description, a.endTime)))
    case Some(Close) => (a.(status := Closed), Some(AuctionEnded(a.id)))
  }

  /** The publications of a pass over `auctions`, in list order. */
  function Notices(auctions: seq<Auction>, now: int): (ns: seq<Notice>)
    ensures |ns| <= |auctions|
    decreases |auctions|
  {
    if auctions == [] then []
    else
      var last := auctions[|auctions| - 1];
      Notices(auctions[..|auctions| - 1], now) + Step(last, now).1.ToSeq()
  }

  /** After the pass has visited the first `i` auctions of `start`: those have taken their step, the rest are untouched. */
  ghost predicate PassedUpTo(start: seq<Auction>, i: int, now: int, current: seq<Auction>)
  {
    && 0 <= i <= |start| && |current| == |start|
    && (forall k | 0 <= k < i :: current[k] == Step(start[k], now).0)
    && (forall k | i <= k < |start| :: current[k] == start[k])
  }

  /** Visiting one more auction keeps `PassedUpTo` and adds that auction's notice. */
  lemma PassStep(start: seq<Auction>, i: int, now: int, current: seq<Auction>)
    requires PassedUpTo(start, i, now, current) && i < |start|
    ensures current[i] == start[i]
    ensures PassedUpTo(start, i + 1, now, current[i := Step(current[i], now).0])
    ensures Notices(start[..i + 1], now) == Notices(start[..i], now) + Step(start[i], now).1.ToSeq()
  {
    assert start[..i + 1][..i] == start[..i];
  }

  /** The filter of `get_active_auctions`: the auctions with status "ativo", in stored order. */
  function ActiveOnly(auctions: seq<Auction>): (r: seq<Auction>)
    ensures forall a | a in r :: a in auctions && a.status == Active
    ensures forall a | a in auctions && a.status == Active :: a in r
    ensures |r| <= |auctions|
    decreases |auctions|
  {
    if auctions == [] then []
    else (if auctions[0].status == Active then [auctions[0]] else []) + ActiveOnly(auctions[1..])
  }

  /** Filtering a list extended at the end extends the filtered list the same way: the filter keeps the stored order. */
  lemma {:induction false} ActiveOnlyAppend(s: seq<Auction>, t: seq<Auction>)
    ensures ActiveOnly(s + t) == ActiveOnly(s) + ActiveOnly(t)
    decreases |s|
  {
    if s == [] {
      assert s + t == t;
    } else {
      assert (s + t)[1..] == s[1..] + t;
      ActiveOnlyAppend(s[1..], t);
    }
  }

  /**
   * A pass publishes one "leilao_iniciado" per auction it opens and one
   * "leilao_finalizado" per auction it closes: a pass that changes nothing
   * publishes nothing.
   */
  lemma {:induction false} QuietPass(auctions: seq<Auction>, now: int)
    requires forall i | 0 <= i < |auctions| :: ChangeAt(auctions[i].status, auctions[i].startTime, auctions[i].endTime, now).None?
    ensures Notices(auctions, now) == []
    decreases |auctions|
  {
    if auctions != [] {
      QuietPass(auctions[..|auctions| - 1], now);
    }
  }

  /** A pass at `now` moves the auction along its lifecycle. */
  predicate Changes(a: Auction, now: int)
  {
    ChangeAt(a.status, a.startTime, a.endTime, now).Some?
  }

  /** A pass publishes exactly one notice per auction it moves, and none for the others. */
  lemma {:induction false} NoticesOnePerAuction(auctions: seq<Auction>, now: int)
    ensures |Notices(auctions, now)| == |set i | 0 <= i < |auctions| && Changes(auctions[i], now)|
    decreases |auctions|
  {
    if auctions != [] {
      var n := |auctions| - 1;
      var init := auctions[..n];
      NoticesOnePerAuction(init, now);
      var before := set i | 0 <= i < |init| && Changes(init[i], now);
      var all := set i | 0 <= i < |auctions| && Changes(auctions[i], now);
      var last: set<int> := if Changes(auctions[n], now) then {n} else {};
      assert all == before + last by {
        forall i | i in all ensures i in before + last {
          if i < n {
            assert init[i] == auctions[i];
          }
        }
        forall i | i in before ensures i in all {
          assert init[i] == auctions[i];
        }
      }
      assert Step(auctions[n], now).1.Some? == Changes(auctions[n], now);
      assert |Notices(auctions, now)| == |Notices(init, now)| + |last|;
    }
  }

  /** The auction manager's list and its broker publications. */
  class AuctionManager {
    var auctions: seq<Auction>
    var published: seq<Notice>

    constructor ()
      ensures auctions == [] && published == []
    {
      auctions := [];
      published := [];
    }

    /**
     * `create_auction(body)`: a valid body appends the new auction and answers
     * 201 with it; a 400 or a failed conversion stores nothing.
     */
    method CreateAuction(body: Option<Object>) returns (code: int, created: Option<Auction>)
      modifies this`auctions
      ensures code == CreateCode(NewAuction(body))
      ensures NewAuction(body).Created? ==>
        created == Some(NewAuction(body).auction) && auctions == old(auctions) + [created.value]
      ensures !NewAuction(body).Created? ==> created == None && auctions == old(auctions)
    {
      var r := NewAuction(body);
      if r.MissingData? {
        return 400, None;
      }
      if r.BadTime? {
        return 500, None;
      }
      auctions := auctions + [r.auction];
      code, created := 201, Some(r.auction);
    }

    /**
     * One pass of `manage_auctions` at `now`: each auction, in list order,
     * takes at most one step of its lifecycle, and each step is published.
     */
    method ManagePass(now: int)
      modifies this
      ensures |auctions| == |old(auctions)|
      ensures forall i | 0 <= i < |auctions| :: auctions[i] == Step(old(auctions)[i], now).0
      ensures published == old(published) + Notices(old(auctions), now)
    {
      var snapshot := auctions;
      for i := 0 to |snapshot|
        invariant PassedUpTo(snapshot, i, now, auctions)
        invariant published == old(published) + Notices(snapshot[..i], now)
      {
        PassStep(snapshot, i, now, auctions);
        Manage(i, now);
      }
      assert snapshot[..|snapshot|] == snapshot;
    }

    /** The body of the pass for the auction at position `i`: at most one lifecycle step, published. */
    method Manage(i: int, now: int)
      requires 0 <= i < |auctions|
      modifies this
      ensures auctions == old(auctions)[i := Step(old(auctions)[i], now).0]
      ensures published == old(published) + Step(old(auctions)[i], now).1.ToSeq()
    {
      var a := auctions[i];
      if now >= a.startTime && a.status == NotStarted {
        auctions := auctions[i := a.(status := Active)];
        published := published + [AuctionStarted(a.id, a.description, a.endTime)];
      } else if now >= a.endTime && a.status == Active {
        auctions := auctions[i := a.(status := Closed)];
        published := published + [AuctionEnded(a.id)];
      }
    }

    /** `get_active_auctions`: 200 with exactly the auctions that are "ativo", in stored order. */
    method GetActiveAuctions() returns (code: int, active: seq<Auction>)
      ensures code == 200
      ensures active == ActiveOnly(auctions)
    {
      code := 200;
      active := ActiveOnly(auctions);
    }
  }
}
