/**
 * One peer of the Ricart-Agrawala mutual-exclusion group: a Lamport clock,
 * the request/reply handshake with its deferral queue, heartbeat liveness and
 * reconciliation against the name server's directory.
 *
 * Every handler is one atomic step on the peer's fields. Outbound remote calls
 * are appended to `outbox` instead of being sent; the release timer is the
 * boolean `csTimer`; wall-clock time is the `now` parameter.
 */
module MutexPeer {
  import opened Wrappers
  import opened LexOrder
  import opened Dicts

  type Uri = string
  type Time = real

  /** The name server's own entry in its directory, never a peer. */
  const NameServerName: string := "Pyro.NameServer"

  /** The remote method an outbound call invokes; the caller's name is always the peer's own. */
  datatype CallKind =
    | Request(timestamp: int)   // receive_request(name, timestamp)
    | Reply                     // receive_reply(name)
    | Heartbeat                 // heartbeat(name)
    | InCSNotice                // one-way receive_in_cs_notification(name)

  /** One outbound call: which method, to which peer, through which address. */
  datatype Call = Call(kind: CallKind, peer: string, uri: Uri)

  /** The snapshot `info()` returns. */
  datatype PeerInfo = PeerInfo(name: string, clock: int, inCs: bool, activePeers: set<string>)

  // ---------------------------------------------------------------------
  // Specification functions
  // ---------------------------------------------------------------------

  /**
   * The Lamport clock after one event: a local tick adds one, a received
   * timestamp is merged as `max(clock, ts) + 1`. Either way the clock moves
   * strictly past its old value and past the received timestamp.
   */
  function Bumped(clock: int, remoteTs: Option<int>): (c: int)
    ensures c > clock
    ensures remoteTs.Some? ==> c > remoteTs.value
    ensures remoteTs.None? ==> c == clock + 1
    ensures remoteTs.Some? ==> c == clock + 1 || c == remoteTs.value + 1
  {
    match remoteTs
    case None => clock + 1
    case Some(ts) => (if clock >= ts then clock else ts) + 1
  }

  /** `active_peers.get(p)` is truthy: the peer is known with a non-empty address. */
  predicate Known(active: map<string, Uri>, p: string)
  {
    p in active && active[p] != ""
  }

  /** `last_heartbeat.get(p, 0)`. */
  function LastSeen(last: map<string, Time>, p: string): Time
  {
    if p in last then last[p] else 0.0
  }

  /** The peer has not been heard from for longer than the heartbeat timeout. */
  predicate Stale(last: map<string, Time>, p: string, now: Time, timeout: Time)
  {
    now - LastSeen(last, p) > timeout
  }

  /**
   * The Ricart-Agrawala defer rule: hold the reply while in the critical
   * section, or while requesting when the incoming claim `(ts, from)` does not
   * strictly precede the peer's own claim `(requestTs, self)`.
   */
  predicate MustDefer(inCs: bool, requesting: bool, requestTs: Option<int>, ts: int, from: string, self: string)
  {
    inCs || (requesting && requestTs.Some? && !ClaimLess(ts, from, requestTs.value, self))
  }

  /**
   * The calls of one kind sent while walking `order`: one to each name whose
   * address is known, in the order of `order`, skipping the others.
   */
  function CallsTo(kind: CallKind, order: seq<string>, active: map<string, Uri>): (calls: seq<Call>)
    ensures |calls| <= |order|
    decreases |order|
  {
    if order == [] then []
    else
      var p := order[|order| - 1];
      CallsTo(kind, order[..|order| - 1], active) + (if Known(active, p) then [Call(kind, p, active[p])] else [])
  }

  /** The peers a heartbeat sweep at `now` evicts. */
  function StalePeers(active: map<string, Uri>, last: map<string, Time>, now: Time, timeout: Time): set<string>
  {
    set p | p in active && Stale(last, p, now, timeout)
  }

  /** The names of `order` that are stale. */
  function StaleAmong(order: seq<string>, last: map<string, Time>, now: Time, timeout: Time): set<string>
  {
    set p | p in order && Stale(last, p, now, timeout)
  }

  /** The heartbeats a sweep sends while walking `order`: one to each peer that is not stale. */
  function HeartbeatsTo(order: seq<string>, active: map<string, Uri>, last: map<string, Time>, now: Time, timeout: Time): (calls: seq<Call>)
    requires forall p | p in order :: p in active
    ensures |calls| <= |order|
    decreases |order|
  {
    if order == [] then []
    else
      var p := order[|order| - 1];
      HeartbeatsTo(order[..|order| - 1], active, last, now, timeout) + (if Stale(last, p, now, timeout) then [] else [Call(Heartbeat, p, active[p])])
  }

  /** The directory names a reconciliation adds: listed, not yet active, not the peer itself nor the name server. */
  function Discovered(active: map<string, Uri>, snapshot: map<string, Uri>, self: string): set<string>
  {
    set nm | nm in snapshot && nm !in active && nm != self && nm != NameServerName
  }

  /**
   * The active-peer map after reconciling with a directory snapshot: exactly
   * the listed names survive, newly listed names (other than the peer itself
   * and the name server) are added with the directory's address, and names
   * already active keep the address they had.
   */
  function Reconcile(active: map<string, Uri>, snapshot: map<string, Uri>, self: string): (r: map<string, Uri>)
    ensures r.Keys <= snapshot.Keys
    ensures snapshot.Keys - {self, NameServerName} <= r.Keys
    ensures forall nm | nm in r && nm in active :: r[nm] == active[nm]
    ensures forall nm | nm in r && nm !in active :: r[nm] == snapshot[nm] && nm != self && nm != NameServerName
  {
    map nm | nm in snapshot && (nm in active || (nm != self && nm != NameServerName)) ::
      if nm in active then active[nm] else snapshot[nm]
  }

  // ---------------------------------------------------------------------
  // Properties of the specification
  // ---------------------------------------------------------------------

  /**
   * Priority ordering in the defer rule: of two peers that both have an
   * outstanding request and are not in the critical section, the rule defers
   * the other's REQUEST at exactly one of them.
   */
  lemma DeferIsAsymmetric(a: string, ta: int, b: string, tb: int)
    requires a != b
    ensures MustDefer(false, true, Some(ta), tb, b, a) != MustDefer(false, true, Some(tb), ta, a, b)
  {
    ClaimOrderTotal(tb, b, ta, a);
  }

  /**
   * The tie-break in the defer rule: with equal timestamps the smaller name
   * wins. The rule defers the larger name's REQUEST at the peer with the
   * smaller name, and does not defer the smaller name's REQUEST at the other.
   */
  lemma TieBreakByName(a: string, b: string, ts: int)
    requires Less(a, b)
    ensures MustDefer(false, true, Some(ts), ts, b, a)
    ensures !MustDefer(false, true, Some(ts), ts, a, b)
  {
    LessAsymmetric(a, b);
  }

  /** Every call made while walking `order` goes to a known peer, at its current address. */
  lemma {:induction false} CallsToKnown(kind: CallKind, order: seq<string>, active: map<string, Uri>)
    ensures forall c | c in CallsTo(kind, order, active) :: c.kind == kind && c.peer in order && Known(active, c.peer) && c.uri == active[c.peer]
    decreases |order|
  {
    if order != [] {
      CallsToKnown(kind, order[..|order| - 1], active);
    }
  }

  /** A heartbeat sweep only heartbeats peers that are not stale, at their current address. */
  lemma {:induction false} HeartbeatsToFresh(order: seq<string>, active: map<string, Uri>, last: map<string, Time>, now: Time, timeout: Time)
    requires forall p | p in order :: p in active
    ensures forall c | c in HeartbeatsTo(order, active, last, now, timeout) ::
      c.kind == Heartbeat && c.peer in order && c.uri == active[c.peer] && !Stale(last, c.peer, now, timeout)
    decreases |order|
  {
    if order != [] {
      HeartbeatsToFresh(order[..|order| - 1], active, last, now, timeout);
    }
  }

  /** Walking one more name extends the calls by at most that name's call. */
  lemma CallsToSnoc(kind: CallKind, s: seq<string>, p: string, active: map<string, Uri>)
    ensures CallsTo(kind, s + [p], active) == CallsTo(kind, s, active) + (if Known(active, p) then [Call(kind, p, active[p])] else [])
  {
    assert (s + [p])[..|s|] == s;
  }

  lemma {:induction false} CallsToAppend(kind: CallKind, s: seq<string>, t: seq<string>, active: map<string, Uri>)
    ensures CallsTo(kind, s + t, active) == CallsTo(kind, s, active) + CallsTo(kind, t, active)
    decreases |t|
  {
    if t == [] {
      assert s + t == s;
    } else {
      var t' := t[..|t| - 1];
      assert (s + t)[..|s + t| - 1] == s + t';
      assert (s + t)[|s + t| - 1] == t[|t| - 1];
      CallsToAppend(kind, s, t', active);
    }
  }

  /**
   * Every name of `order` with a known address receives its call, at the
   * position given by the number of calls made for the names before it.
   */
  lemma CalledAt(kind: CallKind, order: seq<string>, active: map<string, Uri>, i: int)
    requires 0 <= i < |order| && Known(active, order[i])
    ensures var k := |CallsTo(kind, order[..i], active)|;
      k < |CallsTo(kind, order, active)| && CallsTo(kind, order, active)[k] == Call(kind, order[i], active[order[i]])
  {
    var p := order[i];
    assert order == (order[..i] + [p]) + order[i + 1..];
    CallsToAppend(kind, order[..i] + [p], order[i + 1..], active);
    CallsToAppend(kind, order[..i], [p], active);
    assert [p][..0] == [];
  }

  /**
   * Deferred FIFO: if X was deferred before Y and both are still known when
   * the queue is drained, X's REPLY is sent strictly before Y's.
   */
  lemma DrainIsFifo(queue: seq<string>, active: map<string, Uri>, i: int, j: int)
    requires 0 <= i < j < |queue| && Known(active, queue[i]) && Known(active, queue[j])
    ensures var out := CallsTo(Reply, queue, active);
      var ki := |CallsTo(Reply, queue[..i], active)|;
      var kj := |CallsTo(Reply, queue[..j], active)|;
      ki < kj < |out| && out[ki] == Call(Reply, queue[i], active[queue[i]]) && out[kj] == Call(Reply, queue[j], active[queue[j]])
  {
    CalledAt(Reply, queue, active, i);
    CalledAt(Reply, queue, active, j);
    var middle := queue[i..j];
    assert queue[..j] == queue[..i] + middle;
    CallsToAppend(Reply, queue[..i], middle, active);
    CalledAt(Reply, middle, active, 0);
  }

  /** One more step of a heartbeat sweep over distinct active names: how the stale set and the heartbeats grow. */
  lemma SweepStep(items: seq<string>, i: int, active: map<string, Uri>, last: map<string, Time>, now: Time, timeout: Time)
    requires 0 <= i < |items|
    requires forall a, b | 0 <= a < b < |items| :: items[a] != items[b]
    requires forall q | q in items :: q in active
    ensures items[i] !in StaleAmong(items[..i], last, now, timeout)
    ensures StaleAmong(items[..i + 1], last, now, timeout)
      == StaleAmong(items[..i], last, now, timeout) + (if Stale(last, items[i], now, timeout) then {items[i]} else {})
    ensures HeartbeatsTo(items[..i + 1], active, last, now, timeout)
      == HeartbeatsTo(items[..i], active, last, now, timeout)
         + (if Stale(last, items[i], now, timeout) then [] else [Call(Heartbeat, items[i], active[items[i]])])
  {
    var p := items[i];
    assert items[..i + 1] == items[..i] + [p];
    assert forall k | 0 <= k < i :: items[k] != p;
    StaleAmongSnoc(items[..i], p, last, now, timeout);
    HeartbeatsToSnoc(items[..i], p, active, last, now, timeout);
  }

  /** Removing one more key from a map is removing the enlarged key set. */
  lemma RemoveOneMore<K, V>(m: map<K, V>, gone: set<K>, k: K)
    ensures (m - gone) - {k} == m - (gone + {k})
  {
    assert ((m - gone) - {k}).Keys == (m - (gone + {k})).Keys;
  }

  /** Walking one more name adds it to the stale names iff it is stale. */
  lemma StaleAmongSnoc(s: seq<string>, p: string, last: map<string, Time>, now: Time, timeout: Time)
    ensures StaleAmong(s + [p], last, now, timeout)
      == StaleAmong(s, last, now, timeout) + (if Stale(last, p, now, timeout) then {p} else {})
  {
  }

  /** Walking one more active name extends the heartbeats by that name's heartbeat unless it is stale. */
  lemma HeartbeatsToSnoc(s: seq<string>, p: string, active: map<string, Uri>, last: map<string, Time>, now: Time, timeout: Time)
    requires forall q | q in s :: q in active
    requires p in active
    ensures HeartbeatsTo(s + [p], active, last, now, timeout)
      == HeartbeatsTo(s, active, last, now, timeout) + (if Stale(last, p, now, timeout) then [] else [Call(Heartbeat, p, active[p])])
  {
    assert (s + [p])[..|s|] == s;
  }

  /** Reconciling twice with the same snapshot changes nothing the second time. */
  lemma ReconcileIdempotent(active: map<string, Uri>, snapshot: map<string, Uri>, self: string)
    ensures Reconcile(Reconcile(active, snapshot, self), snapshot, self) == Reconcile(active, snapshot, self)
  {
    var once := Reconcile(active, snapshot, self);
    var twice := Reconcile(once, snapshot, self);
    assert twice.Keys == once.Keys;
  }

  /** The active-peer map after the first pass of a reconciliation: the newly listed names added with the directory's address. */
  function Merged(active: map<string, Uri>, snapshot: map<string, Uri>, self: string): (r: map<string, Uri>)
  {
    map nm | nm in active.Keys + Discovered(active, snapshot, self) :: if nm in active then active[nm] else snapshot[nm]
  }

  /**
   * The heartbeat times after a reconciliation at `now`: newly listed names
   * are stamped `now` (replacing any time a heartbeat from an unknown peer
   * left behind), active peers missing from the directory lose their entry,
   * and every other entry is kept.
   */
  function ReconcileSeen(last: map<string, Time>, active: map<string, Uri>, snapshot: map<string, Uri>, self: string, now: Time): (r: map<string, Time>)
    ensures forall nm | nm in Discovered(active, snapshot, self) :: nm in r && r[nm] == now
    ensures forall nm | nm in active && nm !in snapshot :: nm !in r
    ensures forall nm | nm in r && nm !in Discovered(active, snapshot, self) :: nm in last && r[nm] == last[nm]
    ensures forall nm | nm in last && nm !in Discovered(active, snapshot, self) && !(nm in active && nm !in snapshot) ::
      nm in r && r[nm] == last[nm]
  {
    map nm | nm in (last.Keys + Discovered(active, snapshot, self)) - (active.Keys - snapshot.Keys) ::
      if nm in Discovered(active, snapshot, self) then now else last[nm]
  }

  /**
   * The name server reconciliation as the source performs it, first adding the
   * newly listed names and then dropping the unlisted ones, computes Reconcile.
   */
  lemma ReconcileInTwoPasses(active: map<string, Uri>, snapshot: map<string, Uri>, self: string)
    ensures Merged(active, snapshot, self) - (active.Keys - snapshot.Keys) == Reconcile(active, snapshot, self)
  {
    var r := Merged(active, snapshot, self) - (active.Keys - snapshot.Keys);
    assert r.Keys == Reconcile(active, snapshot, self).Keys;
  }

  /**
   * The maps after the first loop of a reconciliation has walked the names
   * `done`: the newly listed names among them have been added with their
   * directory address and stamped `now`, and nothing else has changed.
   */
  ghost predicate AddedSoFar(peers0: map<string, Uri>, seen0: map<string, Time>, names: map<string, Uri>, self: string,
                             now: Time, done: seq<string>, active: map<string, Uri>, last: map<string, Time>)
  {
    var found := Discovered(peers0, names, self);
    && (forall nm :: nm in active <==> nm in peers0 || (nm in found && nm in done))
    && (forall nm | nm in active :: active[nm] == if nm in peers0 then peers0[nm] else names[nm])
    && (forall nm :: nm in last <==> nm in seen0 || (nm in found && nm in done))
    && (forall nm | nm in last :: last[nm] == if nm in found && nm in done then now else seen0[nm])
  }

  /** One iteration of the first loop keeps `AddedSoFar`, with one more name walked. */
  lemma AddStep(peers0: map<string, Uri>, seen0: map<string, Time>, names: map<string, Uri>, self: string, now: Time,
                done: seq<string>, nm: string, active: map<string, Uri>, last: map<string, Time>)
    requires AddedSoFar(peers0, seen0, names, self, now, done, active, last)
    requires nm in names
    ensures var add := nm != self && nm != NameServerName && nm !in active;
      AddedSoFar(peers0, seen0, names, self, now, done + [nm],
        if add then active[nm := names[nm]] else active, if add then last[nm := now] else last)
  {
  }

  /** Once every listed name has been walked, the first loop has computed `Merged` and stamped exactly the discovered names. */
  lemma AddedAll(peers0: map<string, Uri>, seen0: map<string, Time>, names: map<string, Uri>, self: string, now: Time,
                 listed: seq<string>, active: map<string, Uri>, last: map<string, Time>)
    requires Enumerates(listed, names.Keys)
    requires AddedSoFar(peers0, seen0, names, self, now, listed, active, last)
    ensures active == Merged(peers0, names, self)
    ensures last.Keys == seen0.Keys + Discovered(peers0, names, self)
    ensures forall nm | nm in last :: last[nm] == if nm in Discovered(peers0, names, self) then now else seen0[nm]
  {
    assert active.Keys == Merged(peers0, names, self).Keys;
  }

  /** The first pass adds only listed names, so the unlisted names afterwards are the unlisted active ones. */
  lemma MergedUnlisted(active: map<string, Uri>, snapshot: map<string, Uri>, self: string)
    ensures Merged(active, snapshot, self).Keys - snapshot.Keys == active.Keys - snapshot.Keys
  {
  }

  /** The heartbeat times as the source reconciles them, stamping the newly listed names and then dropping the unlisted active peers. */
  lemma ReconcileSeenInTwoPasses(last: map<string, Time>, active: map<string, Uri>, snapshot: map<string, Uri>, self: string, now: Time, stamped: map<string, Time>)
    requires stamped.Keys == last.Keys + Discovered(active, snapshot, self)
    requires forall nm | nm in stamped :: stamped[nm] == if nm in Discovered(active, snapshot, self) then now else last[nm]
    ensures stamped - (active.Keys - snapshot.Keys) == ReconcileSeen(last, active, snapshot, self, now)
  {
    var r := stamped - (active.Keys - snapshot.Keys);
    assert r.Keys == ReconcileSeen(last, active, snapshot, self, now).Keys;
  }

  /** The names of an enumeration of `active` missing from the listing are the unlisted active names. */
  lemma UnlistedAmong(current: seq<string>, active: map<string, Uri>, names: map<string, Uri>)
    requires Enumerates(current, active.Keys)
    ensures (set nm | nm in current && nm !in names) == active.Keys - names.Keys
  {
  }

  /**
   * When neither the peer itself nor the name server is active, the peers
   * active after a reconciliation are exactly the listed names other than
   * those two.
   */
  lemma ReconcileKeys(active: map<string, Uri>, snapshot: map<string, Uri>, self: string)
    requires self !in active && NameServerName !in active
    ensures Reconcile(active, snapshot, self).Keys == snapshot.Keys - {self, NameServerName}
  {
    var r := Reconcile(active, snapshot, self);
    forall nm | nm in snapshot.Keys - {self, NameServerName}
      ensures nm in r
    {
    }
  }

  /** Every active peer keeps a heartbeat entry through a reconciliation. */
  lemma ReconcileKeepsSeen(last: map<string, Time>, active: map<string, Uri>, snapshot: map<string, Uri>, self: string, now: Time)
    requires active.Keys <= last.Keys
    ensures Reconcile(active, snapshot, self).Keys <= ReconcileSeen(last, active, snapshot, self, now).Keys
  {
  }

  // ---------------------------------------------------------------------
  // The peer
  // ---------------------------------------------------------------------

  class Peer {
    const name: string
    const accessTimeLimit: Time
    const hbInterval: Time
    const hbTimeout: Time
    const replyTimeout: Time

    var clock: int
    var requesting: bool
    var requestTimestamp: Option<int>
    /** Names whose REPLY is withheld, oldest first. */
    var deferredReplies: seq<string>
    var repliesReceived: set<string>
    var activePeers: map<string, Uri>
    var lastHeartbeat: map<string, Time>
    var inCs: bool
    /** The release timer is armed. */
    var csTimer: bool
    /** Outbound remote calls, in the order they were made. */
    var outbox: seq<Call>

    /**
     * What every handler preserves: a request timestamp accompanies every
     * request and never exceeds the clock, being in the critical section
     * implies requesting and an armed timer, every active peer has a
     * heartbeat entry, and neither the peer itself nor the name server is
     * ever an active peer.
     */
    ghost predicate Valid()
      reads this`clock, this`requesting, this`requestTimestamp, this`inCs, this`csTimer
      reads this`activePeers, this`lastHeartbeat
    {
      && 0 <= clock
      && (requesting ==> requestTimestamp.Some?)
      && (requestTimestamp.Some? ==> 0 < requestTimestamp.value <= clock)
      && (inCs ==> requesting)
      && csTimer == inCs
      && activePeers.Keys <= lastHeartbeat.Keys
      && name !in activePeers && NameServerName !in activePeers
    }

    constructor (name: string, accessTimeLimit: Time := 10.0, hbInterval: Time := 1.0,
                 hbTimeout: Time := 3.0, replyTimeout: Time := 25.0)
      ensures Valid()
      ensures this.name == name && this.accessTimeLimit == accessTimeLimit && this.hbInterval == hbInterval
      ensures this.hbTimeout == hbTimeout && this.replyTimeout == replyTimeout
      ensures clock == 0 && !requesting && requestTimestamp == None && !inCs && !csTimer
      ensures deferredReplies == [] && repliesReceived == {} && outbox == []
      ensures activePeers == map[] && lastHeartbeat == map[]
    {
      this.name := name;
      this.accessTimeLimit := accessTimeLimit;
      this.hbInterval := hbInterval;
      this.hbTimeout := hbTimeout;
      this.replyTimeout := replyTimeout;
      clock := 0;
      requesting := false;
      requestTimestamp := None;
      deferredReplies := [];
      repliesReceived := {};
      activePeers := map[];
      lastHeartbeat := map[];
      inCs := false;
      csTimer := false;
      outbox := [];
    }

    /** `bump_clock(remote_ts)`: one Lamport clock event. */
    method BumpClock(remoteTs: Option<int>) returns (c: int)
      requires Valid()
      modifies this`clock
      ensures Valid()
      ensures clock == Bumped(old(clock), remoteTs) && c == clock
    {
      match remoteTs {
        case None =>
          clock := clock + 1;
        case Some(ts) =>
          clock := (if clock >= ts then clock else ts) + 1;
      }
      c := clock;
    }

    /**
     * The first half of `request_cs`, up to the wait for replies. While in the
     * critical section it refuses and changes nothing (a peer that is only
     * requesting is not refused). Otherwise it ticks the clock, records the
     * request timestamp, clears the reply set and sends one REQUEST to every
     * active peer with a known address, in the dict's iteration order `targets`.
     */
    method StartRequest() returns (started: bool, ghost targets: seq<string>)
      requires Valid()
      modifies this
      ensures Valid()
      ensures started == !old(inCs)
      ensures !started ==> unchanged(this)
      ensures started ==>
        && clock == old(clock) + 1
        && requestTimestamp == Some(clock)
        && requesting
        && repliesReceived == {}
        && Enumerates(targets, activePeers.Keys)
        && outbox == old(outbox) + CallsTo(Request(clock), targets, activePeers)
      ensures inCs == old(inCs) && csTimer == old(csTimer) && deferredReplies == old(deferredReplies)
      ensures activePeers == old(activePeers) && lastHeartbeat == old(lastHeartbeat)
    {
      targets := [];
      if inCs {
        return false, targets;
      }
      var _ := BumpClock(None);
      requestTimestamp := Some(clock);
      requesting := true;
      var ts := clock;
      var keys := ListKeys(activePeers);
      repliesReceived := {};
      SendRequests(keys, ts);
      targets := keys;
      started := true;
    }

    /** The broadcast loop of `request_cs`: one REQUEST per listed peer whose address is known. */
    method SendRequests(keys: seq<string>, ts: int)
      modifies this`outbox
      ensures outbox == old(outbox) + CallsTo(Request(ts), keys, activePeers)
    {
      for i := 0 to |keys|
        invariant outbox == old(outbox) + CallsTo(Request(ts), keys[..i], activePeers)
      {
        var p := keys[i];
        var uri := if p in activePeers then activePeers[p] else "";
        if uri != "" {
          outbox := outbox + [Call(Request(ts), p, uri)];
        }
        assert keys[..i + 1] == keys[..i] + [p];
        CallsToSnoc(Request(ts), keys[..i], p, activePeers);
      }
      assert keys[..|keys|] == keys;
    }

    /**
     * The second half of `request_cs`, at the deadline, with the replies
     * received so far. It grants iff every active peer has replied: then the
     * peer enters the critical section and arms the release timer. Otherwise
     * exactly the peers that have not replied are evicted from both maps and
     * the request is abandoned, keeping its timestamp and the deferral queue.
     */
    method FinishRequest() returns (granted: bool)
      requires Valid() && requesting && !inCs
      modifies this
      ensures Valid()
      ensures granted == (old(activePeers).Keys <= old(repliesReceived))
      ensures granted ==> inCs && csTimer && requesting
      ensures !granted ==> !inCs && !csTimer && !requesting
      ensures activePeers == old(activePeers) - (old(activePeers).Keys - old(repliesReceived))
      ensures lastHeartbeat == old(lastHeartbeat) - (old(activePeers).Keys - old(repliesReceived))
      ensures clock == old(clock) && requestTimestamp == old(requestTimestamp)
      ensures deferredReplies == old(deferredReplies) && repliesReceived == old(repliesReceived) && outbox == old(outbox)
    {
      var stillNeeded := activePeers.Keys - repliesReceived;
      if stillNeeded != {} {
        var missing :| missing in stillNeeded;
        assert missing in activePeers && missing !in repliesReceived;
        EvictAll(stillNeeded);
        requesting := false;
        granted := false;
      } else {
        assert forall p | p in activePeers :: p in repliesReceived || p in stillNeeded;
        inCs := true;
        csTimer := true;
        granted := true;
      }
    }

    /** The eviction loop of `request_cs`: pop each peer of `gone` from both maps. */
    method EvictAll(gone: set<string>)
      requires Valid()
      modifies this`activePeers, this`lastHeartbeat
      ensures Valid()
      ensures activePeers == old(activePeers) - gone && lastHeartbeat == old(lastHeartbeat) - gone
    {
      var todo := gone;
      while todo != {}
        invariant todo <= gone
        invariant activePeers == old(activePeers) - (gone - todo)
        invariant lastHeartbeat == old(lastHeartbeat) - (gone - todo)
        decreases todo
      {
        var p :| p in todo;
        activePeers := activePeers - {p};
        lastHeartbeat := lastHeartbeat - {p};
        todo := todo - {p};
      }
    }

    /**
     * `release_cs`: outside the critical section a no-op. Otherwise it leaves
     * the critical section, clears the request and the timer and drains the
     * deferral queue front to back, replying to each drained peer that still
     * has a known address.
     */
    method Release()
      requires Valid()
      modifies this
      ensures Valid()
      ensures !old(inCs) ==> unchanged(this)
      ensures old(inCs) ==>
        && !inCs && !requesting && requestTimestamp == None && !csTimer
        && deferredReplies == []
        && outbox == old(outbox) + CallsTo(Reply, old(deferredReplies), activePeers)
      ensures clock == old(clock) && repliesReceived == old(repliesReceived)
      ensures activePeers == old(activePeers) && lastHeartbeat == old(lastHeartbeat)
    {
      if !inCs {
        return;
      }
      inCs, requesting, requestTimestamp, csTimer := false, false, None, false;
      Drain();
    }

    /** The drain loop of `release_cs`: pop the deferral queue front to back, replying to each popped peer with a known address. */
    method Drain()
      modifies this`deferredReplies, this`outbox
      ensures deferredReplies == []
      ensures outbox == old(outbox) + CallsTo(Reply, old(deferredReplies), activePeers)
    {
      ghost var queue := deferredReplies;
      ghost var k := 0;
      while deferredReplies != []
        invariant 0 <= k <= |queue| && deferredReplies == queue[k..]
        invariant outbox == old(outbox) + CallsTo(Reply, queue[..k], activePeers)
        decreases |deferredReplies|
      {
        var p := deferredReplies[0];
        deferredReplies := deferredReplies[1..];
        if p in activePeers && activePeers[p] != "" {
          outbox := outbox + [Call(Reply, p, activePeers[p])];
        }
        assert queue[..k + 1] == queue[..k] + [p];
        CallsToSnoc(Reply, queue[..k], p, activePeers);
        k := k + 1;
      }
      assert queue[..k] == queue;
    }

    /** `_auto_release_cs`: the release timer fires and takes the `release_cs` path. */
    method AutoRelease()
      requires Valid()
      modifies this
      ensures Valid()
      ensures !old(inCs) ==> unchanged(this)
      ensures old(inCs) ==>
        && !inCs && !requesting && requestTimestamp == None && !csTimer
        && deferredReplies == []
        && outbox == old(outbox) + CallsTo(Reply, old(deferredReplies), activePeers)
      ensures clock == old(clock) && repliesReceived == old(repliesReceived)
      ensures activePeers == old(activePeers) && lastHeartbeat == old(lastHeartbeat)
    {
      Release();
    }

    /**
     * `receive_request(from, ts)`: merge the clock, then either defer (append
     * the sender to the deferral queue, and if in the critical section notify
     * the sender one-way) or reply at once, unless the sender's heartbeat is
     * stale. The acknowledgement is always true.
     */
    method ReceiveRequest(from: string, ts: int, now: Time) returns (ack: bool)
      requires Valid()
      modifies this
      ensures Valid() && ack
      ensures clock == Bumped(old(clock), Some(ts))
      ensures var defer := MustDefer(old(inCs), old(requesting), old(requestTimestamp), ts, from, name);
        && deferredReplies == old(deferredReplies) + (if defer then [from] else [])
        && outbox == old(outbox) +
             if defer then (if old(inCs) then CallsTo(InCSNotice, [from], activePeers) else [])
             else if Stale(lastHeartbeat, from, now, hbTimeout) then []
             else CallsTo(Reply, [from], activePeers)
      ensures requesting == old(requesting) && requestTimestamp == old(requestTimestamp) && inCs == old(inCs)
      ensures csTimer == old(csTimer) && repliesReceived == old(repliesReceived)
      ensures activePeers == old(activePeers) && lastHeartbeat == old(lastHeartbeat)
    {
      var _ := BumpClock(Some(ts));
      var mustDefer := false;
      if inCs {
        mustDefer := true;
      } else if requesting {
        if !ClaimLess(ts, from, requestTimestamp.value, name) {
          mustDefer := true;
        }
      }
      assert [from][..0] == [];
      if mustDefer {
        deferredReplies := deferredReplies + [from];
        if inCs {
          if from in activePeers && activePeers[from] != "" {
            outbox := outbox + [Call(InCSNotice, from, activePeers[from])];
          }
        }
      } else {
        var lastHb := if from in lastHeartbeat then lastHeartbeat[from] else 0.0;
        if now - lastHb > hbTimeout {
          return true;
        }
        if from in activePeers && activePeers[from] != "" {
          outbox := outbox + [Call(Reply, from, activePeers[from])];
        }
      }
      ack := true;
    }

    /** `receive_reply(from)`: tick the clock and record the reply, whether or not a request is outstanding. */
    method ReceiveReply(from: string) returns (ack: bool)
      requires Valid()
      modifies this
      ensures Valid() && ack
      ensures clock == old(clock) + 1
      ensures repliesReceived == old(repliesReceived) + {from}
      ensures requesting == old(requesting) && requestTimestamp == old(requestTimestamp) && inCs == old(inCs)
      ensures csTimer == old(csTimer) && deferredReplies == old(deferredReplies) && outbox == old(outbox)
      ensures activePeers == old(activePeers) && lastHeartbeat == old(lastHeartbeat)
    {
      var _ := BumpClock(None);
      repliesReceived := repliesReceived + {from};
      ack := true;
    }

    /** `receive_in_cs_notification(holder)`: informational only; acknowledges and changes nothing. */
    method ReceiveInCSNotification(holder: string) returns (ack: bool)
      ensures ack
    {
      ack := true;
    }

    /**
     * `send_heartbeat()` at time `now`: walking the active peers in the dict's
     * iteration order `order`, evict from both maps exactly the peers not heard
     * from for longer than the heartbeat timeout and send a heartbeat to each
     * of the others. Afterwards no active peer is stale.
     */
    method SendHeartbeat(now: Time) returns (ghost order: seq<string>)
      requires Valid()
      modifies this
      ensures Valid()
      ensures Enumerates(order, old(activePeers).Keys)
      ensures activePeers == old(activePeers) - StalePeers(old(activePeers), old(lastHeartbeat), now, hbTimeout)
      ensures lastHeartbeat == old(lastHeartbeat) - StalePeers(old(activePeers), old(lastHeartbeat), now, hbTimeout)
      ensures forall p | p in activePeers :: !Stale(lastHeartbeat, p, now, hbTimeout)
      ensures outbox == old(outbox) + HeartbeatsTo(order, old(activePeers), old(lastHeartbeat), now, hbTimeout)
      ensures clock == old(clock) && requesting == old(requesting) && requestTimestamp == old(requestTimestamp)
      ensures inCs == old(inCs) && csTimer == old(csTimer)
      ensures deferredReplies == old(deferredReplies) && repliesReceived == old(repliesReceived)
    {
      var items := ListKeys(activePeers);
      HeartbeatSweep(items, now);
      assert StaleAmong(items, old(lastHeartbeat), now, hbTimeout) == StalePeers(old(activePeers), old(lastHeartbeat), now, hbTimeout);
      order := items;
    }

    /** The loop of `send_heartbeat` over the listed active peers `items`. */
    method HeartbeatSweep(items: seq<string>, now: Time)
      requires forall i, j | 0 <= i < j < |items| :: items[i] != items[j]
      requires forall p | p in items :: p in activePeers
      modifies this`activePeers, this`lastHeartbeat, this`outbox
      ensures activePeers == old(activePeers) - StaleAmong(items, old(lastHeartbeat), now, hbTimeout)
      ensures lastHeartbeat == old(lastHeartbeat) - StaleAmong(items, old(lastHeartbeat), now, hbTimeout)
      ensures outbox == old(outbox) + HeartbeatsTo(items, old(activePeers), old(lastHeartbeat), now, hbTimeout)
    {
      ghost var peers, seen, out0 := activePeers, lastHeartbeat, outbox;
      ghost var gone: set<string> := {};
      for i := 0 to |items|
        invariant gone == StaleAmong(items[..i], seen, now, hbTimeout)
        invariant activePeers == peers - gone && lastHeartbeat == seen - gone
        invariant outbox == out0 + HeartbeatsTo(items[..i], peers, seen, now, hbTimeout)
      {
        var p := items[i];
        SweepStep(items, i, peers, seen, now, hbTimeout);
        assert LastSeen(lastHeartbeat, p) == LastSeen(seen, p) && activePeers[p] == peers[p];
        SweepOne(p, now);
        if Stale(seen, p, now, hbTimeout) {
          RemoveOneMore(peers, gone, p);
          RemoveOneMore(seen, gone, p);
          gone := gone + {p};
        }
      }
      assert items[..|items|] == items;
    }

    /** One iteration of the `send_heartbeat` loop: evict `p` if it is stale, heartbeat it otherwise. */
    method SweepOne(p: string, now: Time)
      requires p in activePeers
      modifies this`activePeers, this`lastHeartbeat, this`outbox
      ensures var stale := Stale(old(lastHeartbeat), p, now, hbTimeout);
        && activePeers == (if stale then old(activePeers) - {p} else old(activePeers))
        && lastHeartbeat == (if stale then old(lastHeartbeat) - {p} else old(lastHeartbeat))
        && outbox == old(outbox) + (if stale then [] else [Call(CallKind.Heartbeat, p, old(activePeers)[p])])
    {
      var last := if p in lastHeartbeat then lastHeartbeat[p] else 0.0;
      if now - last > hbTimeout {
        activePeers := activePeers - {p};
        lastHeartbeat := lastHeartbeat - {p};
      } else {
        outbox := outbox + [Call(CallKind.Heartbeat, p, activePeers[p])];
      }
    }

    /** `heartbeat(from)` at time `now`: records the time, even for a peer that is not active, and never changes membership. */
    method Heartbeat(from: string, now: Time) returns (ack: bool)
      requires Valid()
      modifies this`lastHeartbeat
      ensures Valid() && ack
      ensures lastHeartbeat == old(lastHeartbeat)[from := now]
    {
      lastHeartbeat := lastHeartbeat[from := now];
      ack := true;
    }

    /**
     * `update_peers_from_nameserver` with the directory listing, or None when
     * the name server could not be queried (then it returns false and changes
     * nothing). Afterwards the active peers are exactly the listed names other
     * than the peer itself and the name server; newly listed names get the
     * directory's address and a heartbeat time of `now`, peers already active
     * keep their address, and unlisted peers leave both maps.
     */
    method UpdatePeersFromNameServer(listing: Option<map<string, Uri>>, now: Time) returns (ok: bool)
      requires Valid()
      modifies this
      ensures Valid()
      ensures ok == listing.Some?
      ensures !ok ==> unchanged(this)
      ensures ok ==> activePeers.Keys == listing.value.Keys - {name, NameServerName}
      ensures ok ==> activePeers == Reconcile(old(activePeers), listing.value, name)
      ensures ok ==> lastHeartbeat == ReconcileSeen(old(lastHeartbeat), old(activePeers), listing.value, name, now)
      ensures clock == old(clock) && requesting == old(requesting) && requestTimestamp == old(requestTimestamp)
      ensures inCs == old(inCs) && csTimer == old(csTimer) && outbox == old(outbox)
      ensures deferredReplies == old(deferredReplies) && repliesReceived == old(repliesReceived)
    {
      if listing.None? {
        return false;
      }
      ghost var peers0, seen0 := activePeers, lastHeartbeat;
      ReconcileWith(listing.value, now);
      ReconcileKeys(peers0, listing.value, name);
      ReconcileKeepsSeen(seen0, peers0, listing.value, name, now);
      ok := true;
    }

    /** The two loops of `update_peers_from_nameserver` over the directory `names`. */
    method ReconcileWith(names: map<string, Uri>, now: Time)
      modifies this`activePeers, this`lastHeartbeat
      ensures activePeers == Reconcile(old(activePeers), names, name)
      ensures lastHeartbeat == ReconcileSeen(old(lastHeartbeat), old(activePeers), names, name, now)
    {
      ghost var peers0, seen0 := activePeers, lastHeartbeat;
      var listed := ListKeys(names);
      AddListed(listed, names, now);
      ReconcileSeenInTwoPasses(seen0, peers0, names, name, now, lastHeartbeat);
      DropAllUnlisted(names);
      MergedUnlisted(peers0, names, name);
      ReconcileInTwoPasses(peers0, names, name);
    }

    /** The second loop of `update_peers_from_nameserver` over the active peers it lists: the unlisted ones leave both maps. */
    method DropAllUnlisted(names: map<string, Uri>)
      modifies this`activePeers, this`lastHeartbeat
      ensures activePeers == old(activePeers) - (old(activePeers).Keys - names.Keys)
      ensures lastHeartbeat == old(lastHeartbeat) - (old(activePeers).Keys - names.Keys)
    {
      ghost var peers1 := activePeers;
      var current := ListKeys(activePeers);
      DropUnlisted(current, names);
      UnlistedAmong(current, peers1, names);
    }

    /**
     * The first loop of `update_peers_from_nameserver`, over the listed names
     * `listed`: each that is neither the peer itself, nor the name server, nor
     * already active is added with its directory address and a heartbeat time
     * of `now`.
     */
    method AddListed(listed: seq<string>, names: map<string, Uri>, now: Time)
      requires Enumerates(listed, names.Keys)
      modifies this`activePeers, this`lastHeartbeat
      ensures activePeers == Merged(old(activePeers), names, name)
      ensures lastHeartbeat.Keys == old(lastHeartbeat).Keys + Discovered(old(activePeers), names, name)
      ensures forall nm | nm in lastHeartbeat ::
        lastHeartbeat[nm] == if nm in Discovered(old(activePeers), names, name) then now else old(lastHeartbeat)[nm]
    {
      ghost var peers0, seen0 := activePeers, lastHeartbeat;
      for i := 0 to |listed|
        invariant AddedSoFar(peers0, seen0, names, name, now, listed[..i], activePeers, lastHeartbeat)
      {
        var nm := listed[i];
        assert listed[..i + 1] == listed[..i] + [nm];
        AddStep(peers0, seen0, names, name, now, listed[..i], nm, activePeers, lastHeartbeat);
        if nm != name && nm != NameServerName && nm !in activePeers {
          activePeers := activePeers[nm := names[nm]];
          lastHeartbeat := lastHeartbeat[nm := now];
        }
      }
      assert listed[..|listed|] == listed;
      AddedAll(peers0, seen0, names, name, now, listed, activePeers, lastHeartbeat);
    }

    /** The second loop of `update_peers_from_nameserver`: each of `current` not in the listing leaves both maps. */
    method DropUnlisted(current: seq<string>, names: map<string, Uri>)
      modifies this`activePeers, this`lastHeartbeat
      ensures activePeers == old(activePeers) - (set nm | nm in current && nm !in names)
      ensures lastHeartbeat == old(lastHeartbeat) - (set nm | nm in current && nm !in names)
    {
      ghost var peers1, seen1 := activePeers, lastHeartbeat;
      ghost var dropped: set<string> := {};
      for i := 0 to |current|
        invariant forall nm :: nm in dropped <==> nm in current[..i] && nm !in names
        invariant activePeers == peers1 - dropped && lastHeartbeat == seen1 - dropped
      {
        var nm := current[i];
        assert current[..i + 1] == current[..i] + [nm];
        if nm !in names {
          activePeers := activePeers - {nm};
          lastHeartbeat := lastHeartbeat - {nm};
          RemoveOneMore(peers1, dropped, nm);
          RemoveOneMore(seen1, dropped, nm);
          dropped := dropped + {nm};
        }
      }
      assert current[..|current|] == current;
      assert dropped == set nm | nm in current && nm !in names;
    }

    /** `list_active_peers()`: a copy of the name-to-address map. */
    method ListActivePeers() returns (peers: map<string, Uri>)
      ensures peers == activePeers
    {
      peers := activePeers;
    }

    /** `info()`: the peer's name, clock, critical-section flag and active peer names. */
    method Info() returns (info: PeerInfo)
      ensures info.name == name && info.clock == clock && info.inCs == inCs
      ensures forall p :: p in info.activePeers <==> p in activePeers
    {
      info := PeerInfo(name, clock, inCs, activePeers.Keys);
    }
  }
}
