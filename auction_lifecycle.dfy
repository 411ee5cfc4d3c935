/**
 * The life of an auction, shared by both auction managers: "nao iniciado"
 * (not started) becomes "ativo" (active) once the clock reaches its start
 * time, and "ativo" becomes "encerrado" (closed) once it reaches its end
 * time. A manager pass tests the two rules as an `if`/`elif`, so an auction
 * moves at most one step per pass.
 */
module AuctionLifecycle {
  import opened Wrappers

  /** The `status` string of an auction: "nao iniciado", "ativo" or "encerrado". */
  datatype Status = NotStarted | Active | Closed

  /** How far along its life an auction is. */
  function Rank(s: Status): nat
  {
    match s
    case NotStarted => 0
    case Active => 1
    case Closed => 2
  }

  /** What a pass does to one auction: open it (publish "leilao_iniciado") or close it (publish "leilao_finalizado"). */
  datatype Change = Open | Close

  /**
   * The `if`/`elif` of one manager pass at time `now` for an auction with the
   * given status and start and end times.
   */
  function ChangeAt(status: Status, startTime: int, endTime: int, now: int): (c: Option<Change>)
    ensures c == Some(Open) <==> status == NotStarted && now >= startTime
    ensures c == Some(Close) <==> status == Active && now >= endTime
  {
    if now >= startTime && status == NotStarted then Some(Open)
    else if now >= endTime && status == Active then Some(Close)
    else None
  }

  /** The status a change leaves behind. */
  function Apply(status: Status, c: Option<Change>): Status
  {
    match c
    case None => status
    case Some(Open) => Active
    case Some(Close) => Closed
  }

  /**
   * The status after one pass: it never moves backwards, moves at most one
   * step, and "encerrado" is terminal.
   */
  function Advanced(status: Status, startTime: int, endTime: int, now: int): (r: Status)
    ensures Rank(status) <= Rank(r) <= Rank(status) + 1
    ensures status == Closed ==> r == Closed
    ensures r != status ==> ChangeAt(status, startTime, endTime, now).Some?
  {
    Apply(status, ChangeAt(status, startTime, endTime, now))
  }

  /** The status after one pass at each of `times`, in order. */
  function AfterPasses(status: Status, startTime: int, endTime: int, times: seq<int>): Status
    decreases |times|
  {
    if times == [] then status
    else AfterPasses(Advanced(status, startTime, endTime, times[0]), startTime, endTime, times[1..])
  }

  /**
   * Over any number of passes an auction's status never moves backwards and
   * advances at most one step per pass.
   */
  lemma {:induction false} PassesAreMonotone(status: Status, startTime: int, endTime: int, times: seq<int>)
    ensures var r := AfterPasses(status, startTime, endTime, times);
      Rank(status) <= Rank(r) <= Rank(status) + |times|
    decreases |times|
  {
    if times != [] {
      PassesAreMonotone(Advanced(status, startTime, endTime, times[0]), startTime, endTime, times[1..]);
    }
  }

  /** A closed auction stays closed whatever passes follow. */
  lemma {:induction false} ClosedIsTerminal(startTime: int, endTime: int, times: seq<int>)
    ensures AfterPasses(Closed, startTime, endTime, times) == Closed
    decreases |times|
  {
    if times != [] {
      ClosedIsTerminal(startTime, endTime, times[1..]);
    }
  }

  /**
   * Once the clock has passed both the start and the end time, two passes
   * close a new auction: one to open it and one to close it, never just one.
   */
  lemma TwoPassesToClose(startTime: int, endTime: int, t1: int, t2: int)
    requires t1 >= startTime && t1 >= endTime && t2 >= endTime
    ensures AfterPasses(NotStarted, startTime, endTime, [t1]) == Active
    ensures AfterPasses(NotStarted, startTime, endTime, [t1, t2]) == Closed
  {
    assert [t1, t2][1..] == [t2];
    assert AfterPasses(Active, startTime, endTime, [t2]) == AfterPasses(Closed, startTime, endTime, []);
  }

  /** Before the start time a new auction stays unopened, however many passes run. */
  lemma {:induction false} NotOpenedBeforeStart(startTime: int, endTime: int, times: seq<int>)
    requires forall i | 0 <= i < |times| :: times[i] < startTime
    ensures AfterPasses(NotStarted, startTime, endTime, times) == NotStarted
    decreases |times|
  {
    if times != [] {
      NotOpenedBeforeStart(startTime, endTime, times[1..]);
    }
  }
}
