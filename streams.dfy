/**
 * The server-sent-event streams both gateways keep: each connected client id
 * maps to its queue, modelled as the sequence of events put on it since the
 * client connected.
 */
module Streams {
  import opened Json

  type Queues = map<string, seq<Event>>

  /** `queue.put(event)` on the queue of every client in `recipients`, and on no other. */
  function Deliver(queues: Queues, recipients: set<string>, e: Event): (r: Queues)
    ensures r.Keys == queues.Keys
    ensures forall c | c in r && c in recipients :: r[c] == queues[c] + [e]
    ensures forall c | c in r && c !in recipients :: r[c] == queues[c]
  {
    map c | c in queues :: if c in recipients then queues[c] + [e] else queues[c]
  }

  /** Every event a delivery adds is the one delivered, at the tail of the queue. */
  lemma DeliverAppendsOnly(queues: Queues, recipients: set<string>, e: Event, c: string)
    requires c in queues
    ensures var r := Deliver(queues, recipients, e);
      |r[c]| <= |queues[c]| + 1 && r[c][..|queues[c]|] == queues[c]
      && (|r[c]| > |queues[c]| ==> r[c][|queues[c]|] == e && c in recipients)
  {
  }

  /** Delivering to the clients that want an event, in any order, one client at a time, is one delivery. */
  lemma DeliverStep(queues: Queues, done: set<string>, recipients: set<string>, c: string, e: Event)
    requires c in queues && c !in done
    ensures Deliver(queues, (done + {c}) * recipients, e)
      == (var d := Deliver(queues, done * recipients, e); if c in recipients then d[c := d[c] + [e]] else d)
  {
    var d := Deliver(queues, done * recipients, e);
    var lhs := Deliver(queues, (done + {c}) * recipients, e);
    var rhs := if c in recipients then d[c := d[c] + [e]] else d;
    assert lhs.Keys == rhs.Keys;
  }
}
