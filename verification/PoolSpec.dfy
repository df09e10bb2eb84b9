/**
 * The eviction pool as a mathematical object: a short list of candidates, worst first. The code's insertion rule is
 * shown to be that of a priority queue bounded to 16 entries, ordered by rank and, among equal ranks, by age of offer.
 */
module PoolSpec {
  import opened Base

  const EVPOOL_SIZE: nat := 16

  /** A key with its rank: idle time, inverse frequency or histogram score; larger means evicted sooner. */
  datatype Candidate = Candidate(rank: real, dbid: nat, key: Bytes)

  /** The first position whose rank is not below the given one. */
  function Position(pool: seq<Candidate>, rank: real): (k: nat)
    ensures k <= |pool|
    ensures forall i :: 0 <= i < k ==> pool[i].rank < rank
    ensures k < |pool| ==> pool[k].rank >= rank
  {
    if pool == [] || pool[0].rank >= rank then 0 else 1 + Position(pool[1..], rank)
  }

  lemma {:induction false} PositionIs(pool: seq<Candidate>, rank: real, k: nat)
    requires k <= |pool| && (forall i :: 0 <= i < k ==> pool[i].rank < rank) && (k < |pool| ==> pool[k].rank >= rank)
    ensures k == Position(pool, rank)
  {
    var p := Position(pool, rank);
    assert p < |pool| ==> pool[p].rank >= rank;
  }

  function Offered(pool: seq<Candidate>, e: Candidate): (r: seq<Candidate>) {
    var k := Position(pool, e.rank);
    if |pool| < EVPOOL_SIZE then pool[..k] + [e] + pool[k..]
    else if k == 0 then pool
    else pool[1..k] + [e] + pool[k..]
  }

  lemma {:induction false} OfferedRejected(pool: seq<Candidate>, e: Candidate)
    requires |pool| >= EVPOOL_SIZE && Position(pool, e.rank) == 0
    ensures Offered(pool, e) == pool
  {
  }

  function Picked(pool: seq<Candidate>): (r: seq<Candidate>) {
    if pool == [] then [] else pool[..|pool| - 1]
  }

  datatype Event = Offer(e: Candidate) | Pick

  function Run(events: seq<Event>): (pool: seq<Candidate>) {
    if events == [] then []
    else
      var before := Run(events[..|events| - 1]);
      match events[|events| - 1]
      case Offer(e) => Offered(before, e)
      case Pick => Picked(before)
  }

  ghost predicate Ascending(pool: seq<Candidate>) {
    forall i, j :: 0 <= i < j < |pool| ==> pool[i].rank <= pool[j].rank
  }

  /** Where the entries stand after an offer that was taken: d is 1 when the worst entry had to go. */
  lemma {:induction false} OfferedAt(pool: seq<Candidate>, e: Candidate, i: nat)
    requires |pool| <= EVPOOL_SIZE && i < |Offered(pool, e)|
    requires |pool| < EVPOOL_SIZE || Position(pool, e.rank) > 0
    ensures var k, d := Position(pool, e.rank), if |pool| < EVPOOL_SIZE then 0 else 1;
      && |Offered(pool, e)| == |pool| + 1 - d
      && Offered(pool, e)[i] == if i + d < k then pool[i + d] else if i + d == k then e else pool[i + d - 1]
  {
    hide Position;
  }

  lemma {:induction false} OfferedKeepsOrder(pool: seq<Candidate>, e: Candidate)
    requires Ascending(pool) && |pool| <= EVPOOL_SIZE
    ensures Ascending(Offered(pool, e)) && |Offered(pool, e)| <= EVPOOL_SIZE && Offered(pool, e) != []
  {
    hide Position, Offered;
    if |pool| == EVPOOL_SIZE && Position(pool, e.rank) == 0 {
      OfferedRejected(pool, e);
    } else {
      var r := Offered(pool, e);
      OfferedSize(pool, e);
      forall i, j | 0 <= i < j < |r| ensures r[i].rank <= r[j].rank {
        OfferedAt(pool, e, i);
        OfferedAt(pool, e, j);
      }
    }
  }

  lemma {:induction false} OfferedSize(pool: seq<Candidate>, e: Candidate)
    requires |pool| <= EVPOOL_SIZE
    ensures |Offered(pool, e)| == if |pool| < EVPOOL_SIZE then |pool| + 1 else EVPOOL_SIZE
  {
    hide Position;
  }

  // ------------------------------------------------------------------ the bounded priority queue

  /** A candidate together with the moment it was offered, which tells equal offers apart. */
  datatype Ticket = Ticket(e: Candidate, at: nat)

  predicate Better(a: Ticket, b: Ticket) {
    a.e.rank > b.e.rank || (a.e.rank == b.e.rank && a.at < b.at)
  }

  ghost predicate IsBest(b: Ticket, q: set<Ticket>) {
    b in q && forall t :: t in q && t != b ==> Better(b, t)
  }

  ghost predicate IsWorst(w: Ticket, q: set<Ticket>) {
    w in q && forall t :: t in q && t != w ==> Better(t, w)
  }

  /** One step of a priority queue of at most 16 tickets: an offer may push out the worst, a pick removes the best. */
  ghost predicate QueueStep(q: set<Ticket>, ev: Event, now: nat, q': set<Ticket>) {
    match ev
    case Offer(e) =>
      var all := q + {Ticket(e, now)};
      if |q| < EVPOOL_SIZE then q' == all else exists w :: IsWorst(w, all) && q' == all - {w}
    case Pick =>
      if q == {} then q' == {} else exists b :: IsBest(b, q) && q' == q - {b}
  }

  function Erase(tickets: seq<Ticket>): (r: seq<Candidate>)
    ensures |r| == |tickets|
  {
    seq(|tickets|, i requires 0 <= i < |tickets| => tickets[i].e)
  }

  /** The same run, remembering when each candidate was offered. */
  function RunTickets(events: seq<Event>): (r: seq<Ticket>) {
    if events == [] then []
    else
      var now := |events| - 1;
      TicketStep(RunTickets(events[..now]), events[now], now)
  }

  function TicketStep(t: seq<Ticket>, ev: Event, now: nat): (r: seq<Ticket>) {
    match ev
    case Pick => if t == [] then [] else t[..|t| - 1]
    case Offer(e) =>
      var k := Position(Erase(t), e.rank);
      if |t| < EVPOOL_SIZE then t[..k] + [Ticket(e, now)] + t[k..]
      else if k == 0 then t
      else t[1..k] + [Ticket(e, now)] + t[k..]
  }

  lemma EraseStep(t: seq<Ticket>, ev: Event, now: nat)
    ensures Erase(TicketStep(t, ev, now)) ==
            match ev case Offer(e) => Offered(Erase(t), e) case Pick => Picked(Erase(t))
  {
    hide Position;
    match ev
    case Pick =>
    case Offer(e) =>
      var k := Position(Erase(t), e.rank);
      assert Erase([Ticket(e, now)]) == [e];
      assert Erase(t[..k] + [Ticket(e, now)] + t[k..]) == Erase(t)[..k] + [e] + Erase(t)[k..];
      if 0 < k {
        assert Erase(t[1..k] + [Ticket(e, now)] + t[k..]) == Erase(t)[1..k] + [e] + Erase(t)[k..];
      }
  }

  ghost predicate WorstFirst(t: seq<Ticket>) {
    forall i, j :: 0 <= i < j < |t| ==> Better(t[j], t[i])
  }

  /** Worst first, and nothing offered later than now. */
  ghost predicate Ranked(t: seq<Ticket>, now: nat) {
    && |t| <= EVPOOL_SIZE
    && WorstFirst(t)
    && (forall i :: 0 <= i < |t| ==> t[i].at < now)
  }

  lemma RankedSize(t: seq<Ticket>, now: nat)
    requires Ranked(t, now)
    ensures |Elements(t)| == |t|
  {
    assert Distinct(t) by {
      assert forall i, j :: 0 <= i < j < |t| ==> Better(t[j], t[i]);
    }
    DistinctSize(t);
  }

  lemma InsertedMembers(t: seq<Ticket>, k: nat, x: Ticket)
    requires k <= |t|
    ensures Elements(t[..k] + [x] + t[k..]) == Elements(t) + {x}
  {
    var r := t[..k] + [x] + t[k..];
    forall y | y in t ensures y in r {
      var i :| 0 <= i < |t| && t[i] == y;
      assert r[if i < k then i else i + 1] == y;
    }
    assert r[k] == x;
  }

  /** Inserting before every equal or larger rank keeps the tickets ranked, the new one being the latest offer. */
  lemma InsertedRanked(t: seq<Ticket>, e: Candidate, now: nat)
    requires Ranked(t, now)
    ensures var k := Position(Erase(t), e.rank);
            var r := t[..k] + [Ticket(e, now)] + t[k..];
            WorstFirst(r) && forall i :: 0 <= i < |r| ==> r[i].at <= now
  {
    hide Position, Better;
    var k := Position(Erase(t), e.rank);
    var x := Ticket(e, now);
    var r := t[..k] + [x] + t[k..];
    assert forall i :: 0 <= i < |r| ==> r[i] == if i < k then t[i] else if i == k then x else t[i - 1];
    forall i, j | 0 <= i < j < |r| ensures Better(r[j], r[i]) {
      if i == k {
        assert Erase(t)[k].rank >= e.rank;
        LaterBeats(t, k, j - 1, x, now);
      } else if j == k {
        assert Erase(t)[i].rank < e.rank;
        LowerRankLoses(x, t[i]);
      }
    }
  }

  /** A new ticket loses to every ticket at or above the first one whose rank is not below its own. */
  lemma LaterBeats(t: seq<Ticket>, k: nat, j: nat, x: Ticket, now: nat)
    requires Ranked(t, now) && k <= j < |t| && t[k].e.rank >= x.e.rank && x.at == now
    ensures Better(t[j], x)
  {
    assert j > k ==> Better(t[j], t[k]);
  }

  lemma LowerRankLoses(x: Ticket, y: Ticket)
    requires y.e.rank < x.e.rank
    ensures Better(x, y)
  {
  }

  lemma TailOfInserted(t: seq<Ticket>, k: nat, x: Ticket)
    requires k <= |t|
    ensures (t[..k] + [x] + t[k..])[1..] == if k == 0 then t else t[1..k] + [x] + t[k..]
  {
  }

  lemma OfferStep(t: seq<Ticket>, e: Candidate, now: nat)
    requires Ranked(t, now)
    ensures Ranked(TicketStep(t, Offer(e), now), now + 1)
    ensures QueueStep(Elements(t), Offer(e), now, Elements(TicketStep(t, Offer(e), now)))
  {
    hide WorstFirst, Position, Erase, Elements;
    var k := Position(Erase(t), e.rank);
    var x := Ticket(e, now);
    var full := t[..k] + [x] + t[k..];
    InsertedRanked(t, e, now);
    InsertedMembers(t, k, x);
    RankedSize(t, now);
    if |t| == EVPOOL_SIZE {
      TailOfInserted(t, k, x);
      assert TicketStep(t, Offer(e), now) == full[1..];
      DropFirst(full);
    }
  }

  lemma DropFirst(full: seq<Ticket>)
    requires full != [] && WorstFirst(full)
    ensures WorstFirst(full[1..]) && IsWorst(full[0], Elements(full)) && Elements(full[1..]) == Elements(full) - {full[0]}
  {
    forall y | y in full && y != full[0] ensures y in full[1..] && Better(y, full[0]) {
      var i :| 0 <= i < |full| && full[i] == y;
      assert full[1..][i - 1] == y;
    }
    assert forall i :: 0 <= i < |full[1..]| ==> full[1..][i] == full[i + 1] && Better(full[i + 1], full[0]);
  }

  lemma PickStep(t: seq<Ticket>, now: nat)
    requires Ranked(t, now)
    ensures Ranked(TicketStep(t, Pick, now), now + 1)
    ensures QueueStep(Elements(t), Pick, now, Elements(TicketStep(t, Pick, now)))
  {
    hide Better;
    if t != [] {
      var init, last := t[..|t| - 1], t[|t| - 1];
      LastIsBest(t);
      ElementsAppend(init, last);
    }
  }

  lemma LastIsBest(t: seq<Ticket>)
    requires t != [] && WorstFirst(t)
    ensures var init, last := t[..|t| - 1], t[|t| - 1];
      t == init + [last] && last !in init && WorstFirst(init) && IsBest(last, Elements(t))
  {
    var init, last := t[..|t| - 1], t[|t| - 1];
    assert forall i :: 0 <= i < |init| ==> init[i] == t[i] && Better(last, t[i]);
    forall y | y in t && y != last ensures Better(last, y) {
      var i :| 0 <= i < |t| && t[i] == y;
    }
  }

  /**
   * Refinement, over every interleaving of offers and picks: the pool is at all times the bounded priority queue,
   * laid out worst first.
   */
  lemma {:induction false} PoolIsBoundedQueue(events: seq<Event>)
    ensures Ranked(RunTickets(events), |events|)
    ensures Erase(RunTickets(events)) == Run(events)
    ensures events != [] ==>
      var now := |events| - 1;
      QueueStep(Elements(RunTickets(events[..now])), events[now], now, Elements(RunTickets(events)))
  {
    if events != [] {
      var now := |events| - 1;
      PoolIsBoundedQueue(events[..now]);
      EraseStep(RunTickets(events[..now]), events[now], now);
      match events[now]
      case Offer(e) => OfferStep(RunTickets(events[..now]), e, now);
      case Pick => PickStep(RunTickets(events[..now]), now);
    }
  }

  // ------------------------------------------------------------------ one round of sampling

  function Offers(cs: seq<Candidate>): (r: seq<Event>)
    ensures |r| == |cs|
  {
    seq(|cs|, i requires 0 <= i < |cs| => Offer(cs[i]))
  }

  function AllTickets(cs: seq<Candidate>): (r: set<Ticket>) {
    set i | 0 <= i < |cs| :: Ticket(cs[i], i)
  }

  /** Everything left out is worse than everything kept, and nothing is left out without need. */
  ghost predicate KeepsBest(all: set<Ticket>, kept: set<Ticket>) {
    && kept <= all
    && |kept| <= EVPOOL_SIZE
    && (|kept| < EVPOOL_SIZE ==> kept == all)
    && forall out, t :: out in all - kept && t in kept ==> Better(t, out)
  }

  lemma KeepsBestStep(all: set<Ticket>, kept: set<Ticket>, e: Candidate, now: nat, kept': set<Ticket>)
    requires KeepsBest(all, kept) && Ticket(e, now) !in all
    requires QueueStep(kept, Offer(e), now, kept')
    ensures KeepsBest(all + {Ticket(e, now)}, kept')
  {
    var x := Ticket(e, now);
    if |kept| == EVPOOL_SIZE {
      var w :| IsWorst(w, kept + {x}) && kept' == kept + {x} - {w};
      forall out, t | out in all + {x} - kept' && t in kept' ensures Better(t, out) {
        if out != w {
          assert out in all - kept;
          if t == x {
            assert w in kept && Better(w, out) && Better(x, w);
          }
        }
      }
    }
  }

  /** Offered to an empty pool, any number of candidates leaves exactly the best 16 of them. */
  lemma {:induction false} BestSixteen(cs: seq<Candidate>)
    ensures KeepsBest(AllTickets(cs), Elements(RunTickets(Offers(cs))))
  {
    hide KeepsBest, Ranked, QueueStep;
    if cs != [] {
      var n := |cs| - 1;
      BestSixteen(cs[..n]);
      assert Offers(cs)[..n] == Offers(cs[..n]);
      PoolIsBoundedQueue(Offers(cs));
      AllTicketsStep(cs);
      KeepsBestStep(AllTickets(cs[..n]), Elements(RunTickets(Offers(cs[..n]))), cs[n], n,
        Elements(RunTickets(Offers(cs))));
    } else {
      NothingOffered();
    }
  }

  lemma NothingOffered()
    ensures KeepsBest(AllTickets([]), Elements(RunTickets(Offers([]))))
  {
    assert Offers([]) == [];
  }

  lemma AllTicketsStep(cs: seq<Candidate>)
    requires cs != []
    ensures AllTickets(cs) == AllTickets(cs[..|cs| - 1]) + {Ticket(cs[|cs| - 1], |cs| - 1)}
  {
    var n := |cs| - 1;
    assert forall i :: 0 <= i < n ==> cs[..n][i] == cs[i];
    forall t | t in AllTickets(cs) ensures t in AllTickets(cs[..n]) + {Ticket(cs[n], n)} {
      var i :| 0 <= i < |cs| && t == Ticket(cs[i], i);
      assert i < n ==> t == Ticket(cs[..n][i], i);
    }
  }

  lemma TopBeatsAll(t: seq<Ticket>, now: nat, all: set<Ticket>)
    requires Ranked(t, now) && KeepsBest(all, Elements(t)) && all != {}
    ensures t != [] && IsBest(t[|t| - 1], all)
  {
    if t == [] {
      NoElements(t);
      assert false;
    }
    var top := t[|t| - 1];
    assert top in Elements(t);
    forall x | x in all && x != top ensures Better(top, x) {
      if x in Elements(t) {
        var p :| 0 <= p < |t| && t[p] == x;
        assert Better(top, t[p]);
      }
    }
  }

  lemma NoElements(t: seq<Ticket>)
    requires t == []
    ensures Elements(t) == {}
  {
  }

  /** The candidate at index i outranks every other one offered, or ties with it and was offered first. */
  ghost predicate FirstAmongBest(cs: seq<Candidate>, i: nat) {
    i < |cs| && forall j :: 0 <= j < |cs| && j != i ==> Better(Ticket(cs[i], i), Ticket(cs[j], j))
  }

  /** The candidate a round picks is the best of everything offered in it, and the first such if several tie. */
  lemma TopIsBest(cs: seq<Candidate>)
    requires cs != []
    ensures Run(Offers(cs)) != []
    ensures exists i: nat :: FirstAmongBest(cs, i) && Run(Offers(cs))[|Run(Offers(cs))| - 1] == cs[i]
  {
    hide KeepsBest, Ranked, Better, Run, RunTickets, Elements, Offers;
    var t := RunTickets(Offers(cs));
    var all := AllTickets(cs);
    PoolIsBoundedQueue(Offers(cs));
    BestSixteen(cs);
    assert Ticket(cs[0], 0) in all;
    TopBeatsAll(t, |cs|, all);
    var top := t[|t| - 1];
    var i :| 0 <= i < |cs| && top == Ticket(cs[i], i);
    forall j | 0 <= j < |cs| && j != i ensures Better(Ticket(cs[i], i), Ticket(cs[j], j)) {
      assert Ticket(cs[j], j) in all;
    }
    assert Erase(t)[|t| - 1] == cs[i];
    assert FirstAmongBest(cs, i);
  }
}
