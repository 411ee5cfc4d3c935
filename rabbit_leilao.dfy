/**
 * The RabbitMQ auction manager: a fixed list of two auctions created at
 * start-up, walked once per second, opening and closing auctions as the
 * clock passes their times. Publications on the "leilao" exchange are
 * appended to `published` as (routing key, text body); the clock is the
 * `now` parameter.
 */
module RabbitLeilao {
  import opened Wrappers
  import opened Decimal
  import opened AuctionLifecycle

  datatype Leilao = Leilao(id: string, description: string, startTime: int, endTime: int, status: Status)

  /** One `basic_publish` on the "leilao" exchange. */
  datatype Publication = Publication(routingKey: string, body: string)

  /** The text published when an auction opens. */
  function StartedMessage(l: Leilao): string
  {
    "\n ID:" + l.id + "\n Description:" + l.description + "\n END:" + Show(l.endTime)
  }

  /** The text published when an auction closes. */
  function EndedMessage(l: Leilao): string
  {
    "ID:" + l.id
  }

  /** One iteration of the loop body on one auction at `now`: its new status and what it publishes. */
  function Step(l: Leilao, now: int): (r: (Leilao, Option<Publication>))
    ensures r.0 == l.(status := Advanced(l.status, l.startTime, l.endTime, now))
    ensures r.1.Some? <==> r.0.status != l.status
    ensures r.1.Some? && r.0.status == Active ==> r.1.value == Publication("leilao_iniciado", StartedMessage(l))
    ensures r.1.Some? && r.0.status == Closed ==> r.1.value == Publication("leilao_finalizado", EndedMessage(l))
  {
    match ChangeAt(l.status, l.startTime, l.endTime, now)
    case None => (l, None)
    case Some(Open) => (l.(status := Active), Some(Publication("leilao_iniciado", StartedMessage(l))))
    case Some(Close) => (l.(status := Closed), Some(Publication("leilao_finalizado", EndedMessage(l))))
  }

  /** The publications of one pass over `leiloes`, in list order. */
  function Publications(leiloes: seq<Leilao>, now: int): (ps: seq<Publication>)
    ensures |ps| <= |leiloes|
    decreases |leiloes|
  {
    if leiloes == [] then []
    else
      var last := leiloes[|leiloes| - 1];
      Publications(leiloes[..|leiloes| - 1], now) + Step(last, now).1.ToSeq()
  }

  /** After the loop body has run on the first `i` auctions of `start`: those have taken their step, the rest are untouched. */
  ghost predicate PassedUpTo(start: seq<Leilao>, i: int, now: int, current: seq<Leilao>)
  {
    && 0 <= i <= |start| && |current| == |start|
    && (forall k | 0 <= k < i :: current[k] == Step(start[k], now).0)
    && (forall k | i <= k < |start| :: current[k] == start[k])
  }

  /** One more iteration of the loop body keeps `PassedUpTo` and adds that auction's publication. */
  lemma PassStep(start: seq<Leilao>, i: int, now: int, current: seq<Leilao>)
    requires PassedUpTo(start, i, now, current) && i < |start|
    ensures current[i] == start[i]
    ensures PassedUpTo(start, i + 1, now, current[i := Step(current[i], now).0])
    ensures Publications(start[..i + 1], now) == Publications(start[..i], now) + Step(start[i], now).1.ToSeq()
  {
    assert start[..i + 1][..i] == start[..i];
  }

  /** The text after the last `c` in `s`, or all of `s` when `c` does not occur in it. */
  function After(s: string, c: char): (t: string)
    ensures c !in t
    ensures |t| <= |s| && t == s[|s| - |t|..]
    ensures |t| < |s| ==> s[|s| - |t| - 1] == c
    decreases |s|
  {
    if s == [] || s[|s| - 1] == c then []
    else After(s[..|s| - 1], c) + [s[|s| - 1]]
  }

  /** Whatever precedes the last separator, the text after it is what follows it. */
  lemma {:induction false} AfterSeparator(p: string, c: char, t: string)
    requires c !in t
    ensures After(p + [c] + t, c) == t
    decreases |t|
  {
    var s := p + [c] + t;
    if t == [] {
      assert s[|s| - 1] == c;
    } else {
      var t' := t[..|t| - 1];
      assert s[..|s| - 1] == p + [c] + t';
      assert s[|s| - 1] == t[|t| - 1] && t[|t| - 1] != c;
      AfterSeparator(p, c, t');
      assert t' + [t[|t| - 1]] == t;
    }
  }

  /**
   * The end time can be read back from the text announcing an auction's
   * opening, as the text after its last ':', whatever colons the id and
   * description contain: the END field comes last and `str()` of an integer
   * holds no ':'.
   */
  lemma EndTimeReadBack(l: Leilao)
    ensures Parse(After(StartedMessage(l), ':')) == Some(l.endTime)
  {
    var e := Show(l.endTime);
    var head := "\n ID:" + l.id + "\n Description:" + l.description + "\n END";
    assert ':' !in e by {
      forall i | 0 <= i < |e|
        ensures e[i] != ':'
      {
        assert IsDigit(e[i]) || e[i] == '-';
      }
    }
    assert StartedMessage(l) == head + [':'] + e;
    AfterSeparator(head, ':', e);
    ParseShow(l.endTime);
  }

  /** The manager's auction list and its publications. */
  class LeilaoManager {
    var leiloes: seq<Leilao>
    var published: seq<Publication>

    /** The two auctions the manager starts with, timed from the start-up clock `now`. */
    constructor (now: int)
      ensures leiloes == [
        Leilao("1", "Notebook", now + 10, now + 30, NotStarted),
        Leilao("2", "Notebook2", now + 15, now + 45, NotStarted)]
      ensures published == []
    {
      leiloes := [
        Leilao("1", "Notebook", now + 10, now + 30, NotStarted),
        Leilao("2", "Notebook2", now + 15, now + 45, NotStarted)];
      published := [];
    }

    /**
     * One iteration of the `while True` loop at `now`: each auction, in list
     * order, takes at most one lifecycle step, the statuses of the others are
     * untouched by it, and each step is published.
     */
    method Pass(now: int)
      modifies this
      ensures |leiloes| == |old(leiloes)|
      ensures forall i | 0 <= i < |leiloes| :: leiloes[i] == Step(old(leiloes)[i], now).0
      ensures published == old(published) + Publications(old(leiloes), now)
    {
      ghost var start := leiloes;
      for i := 0 to |leiloes|
        invariant PassedUpTo(start, i, now, leiloes)
        invariant published == old(published) + Publications(start[..i], now)
      {
        PassStep(start, i, now, leiloes);
        Visit(i, now);
      }
      assert start[..|start|] == start;
    }

    /** The loop body for the auction at position `i`: at most one lifecycle step, published. */
    method Visit(i: int, now: int)
      requires 0 <= i < |leiloes|
      modifies this
      ensures leiloes == old(leiloes)[i := Step(old(leiloes)[i], now).0]
      ensures published == old(published) + Step(old(leiloes)[i], now).1.ToSeq()
    {
      var leilao := leiloes[i];
      if now >= leilao.startTime && leilao.status == NotStarted {
        leiloes := leiloes[i := leilao.(status := Active)];
        var message := "\n ID:" + leilao.id + "\n Description:" + leilao.description + "\n END:" + Show(leilao.endTime);
        published := published + [Publication("leilao_iniciado", message)];
      } else if now >= leilao.endTime && leilao.status == Active {
        leiloes := leiloes[i := leilao.(status := Closed)];
        var message := "ID:" + leilao.id;
        published := published + [Publication("leilao_finalizado", message)];
      }
    }
  }

  /**
   * One pass ten seconds after start-up: the first
   * auction opens, and at that moment the second is still waiting.
   */
  lemma FirstOpening(now: int)
    ensures var ls := [
        Leilao("1", "Notebook", now + 10, now + 30, NotStarted),
        Leilao("2", "Notebook2", now + 15, now + 45, NotStarted)];
      && Step(ls[0], now + 10).0.status == Active
      && Step(ls[1], now + 10).0.status == NotStarted
      && Publications(ls, now + 10) == [Publication("leilao_iniciado", StartedMessage(ls[0]))]
  {
    var ls := [
        Leilao("1", "Notebook", now + 10, now + 30, NotStarted),
        Leilao("2", "Notebook2", now + 15, now + 45, NotStarted)];
    assert ls[..1] == [ls[0]];
    assert ls[..1][..0] == [];
  }
}
